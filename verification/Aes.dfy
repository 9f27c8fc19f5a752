/**
 AES-128 as fd_crypto_aes.c computes it, on values: a state is the sixteen bytes of a block, byte 4 * c + r being row
 r of column c. The main results: the inverse cipher undoes the cipher under every round key schedule (sections 5.1
 to 5.3 of FIPS 197), CBC decryption undoes CBC encryption (section 6.2 of NIST SP 800-38A), and decrypting piece
 by piece is decrypting at once.
*/
module Aes {
  import opened AesTables

  type Block = s: seq<bv8> | |s| == 16 witness seq(16, _ => 0)

  // ---------------------------------------------------------------- columns

  /** Addition in GF(2^8). */
  function Plus(x: bv8, y: bv8): bv8 {
    x ^ y
  }

  datatype Column = Column(a: bv8, b: bv8, c: bv8, d: bv8)

  function Add(p: Column, q: Column): Column {
    Column(Plus(p.a, q.a), Plus(p.b, q.b), Plus(p.c, q.c), Plus(p.d, q.d))
  }

  /** Multiplication by x in GF(2^8). */
  function Xtime(x: bv8): bv8 {
    (x << 1) ^ (((x >> 7) & 1) * 0x1b)
  }

  /** `Multiply`, for the constants below 0x20 it is used with. */
  function Multiply(x: bv8, y: bv8): bv8 {
    ((y & 1) * x)
    ^ (((y >> 1) & 1) * Xtime(x))
    ^ (((y >> 2) & 1) * Xtime(Xtime(x)))
    ^ (((y >> 3) & 1) * Xtime(Xtime(Xtime(x))))
    ^ (((y >> 4) & 1) * Xtime(Xtime(Xtime(Xtime(x)))))
  }

  function MixColumn(p: Column): Column {
    var t := Plus(Plus(Plus(p.a, p.b), p.c), p.d);
    Column(Plus(p.a, Plus(Xtime(Plus(p.a, p.b)), t)), Plus(p.b, Plus(Xtime(Plus(p.b, p.c)), t)),
           Plus(p.c, Plus(Xtime(Plus(p.c, p.d)), t)), Plus(p.d, Plus(Xtime(Plus(p.d, p.a)), t)))
  }

  function Dot(p: Column, w: bv8, x: bv8, y: bv8, z: bv8): bv8 {
    Plus(Plus(Plus(Multiply(p.a, w), Multiply(p.b, x)), Multiply(p.c, y)), Multiply(p.d, z))
  }

  function InvMixColumn(p: Column): Column {
    Column(Dot(p, 0x0e, 0x0b, 0x0d, 0x09), Dot(p, 0x09, 0x0e, 0x0b, 0x0d),
           Dot(p, 0x0d, 0x09, 0x0e, 0x0b), Dot(p, 0x0b, 0x0d, 0x09, 0x0e))
  }

  // Both column maps are sums of doublings and rotations, so they distribute over `Add`.

  function Double(p: Column): Column {
    Column(Xtime(p.a), Xtime(p.b), Xtime(p.c), Xtime(p.d))
  }

  function Rotate(p: Column): Column {
    Column(p.b, p.c, p.d, p.a)
  }

  function Total(p: Column): Column {
    var t := Plus(Plus(Plus(p.a, p.b), p.c), p.d);
    Column(t, t, t, t)
  }

  lemma XtimeOfXor(x: bv8, y: bv8)
    ensures Xtime(Plus(x, y)) == Plus(Xtime(x), Xtime(y))
  {
  }

  lemma DoubleOfAdd(p: Column, q: Column)
    ensures Double(Add(p, q)) == Add(Double(p), Double(q))
  {
    hide Xtime, Plus;
    XtimeOfXor(p.a, q.a);
    XtimeOfXor(p.b, q.b);
    XtimeOfXor(p.c, q.c);
    XtimeOfXor(p.d, q.d);
  }

  lemma Swap(a: bv8, b: bv8, c: bv8, d: bv8)
    ensures Plus(Plus(a, b), Plus(c, d)) == Plus(Plus(a, c), Plus(b, d))
  {
    assert (a ^ b) ^ (c ^ d) == (a ^ c) ^ (b ^ d);
  }

  lemma Turn(w: bv8, x: bv8, y: bv8, z: bv8)
    ensures Plus(Plus(Plus(w, x), y), z) == Plus(Plus(Plus(x, y), z), w)
  {
    assert ((w ^ x) ^ y) ^ z == ((x ^ y) ^ z) ^ w;
  }

  lemma SwapColumns(p: Column, q: Column, r: Column, s: Column)
    ensures Add(Add(p, q), Add(r, s)) == Add(Add(p, r), Add(q, s))
  {
    hide Plus;
    Swap(p.a, q.a, r.a, s.a);
    Swap(p.b, q.b, r.b, s.b);
    Swap(p.c, q.c, r.c, s.c);
    Swap(p.d, q.d, r.d, s.d);
  }

  lemma TotalOfAdd(p: Column, q: Column)
    ensures Total(Add(p, q)) == Add(Total(p), Total(q))
  {
    hide Plus;
    Swap(p.a, q.a, p.b, q.b);
    Swap(Plus(p.a, p.b), Plus(q.a, q.b), p.c, q.c);
    Swap(Plus(Plus(p.a, p.b), p.c), Plus(Plus(q.a, q.b), q.c), p.d, q.d);
  }

  lemma MixIsSum(p: Column)
    ensures MixColumn(p) == Add(p, Add(Double(Add(p, Rotate(p))), Total(p)))
  {
    hide Xtime, Plus;
  }

  lemma RotateOfAdd(p: Column, q: Column)
    ensures Rotate(Add(p, q)) == Add(Rotate(p), Rotate(q))
  {
    hide Plus;
  }

  lemma MixOfAdd(p: Column, q: Column)
    ensures MixColumn(Add(p, q)) == Add(MixColumn(p), MixColumn(q))
  {
    hide Add, Double, Rotate, Total, MixColumn;
    MixIsSum(p);
    MixIsSum(q);
    MixIsSum(Add(p, q));
    RotateOfAdd(p, q);
    var p2, q2 := Add(p, Rotate(p)), Add(q, Rotate(q));
    SwapColumns(p, q, Rotate(p), Rotate(q));
    DoubleOfAdd(p2, q2);
    TotalOfAdd(p, q);
    SwapColumns(Double(p2), Double(q2), Total(p), Total(q));
    SwapColumns(p, q, Add(Double(p2), Total(p)), Add(Double(q2), Total(q)));
  }

  /** `k` times a column, for the constants of the inverse map, by doubling. */
  function Scale(p: Column, k: bv8): Column {
    var p2 := Double(p);
    var p4 := Double(p2);
    var p8 := Double(p4);
    if k == 0x09 then Add(p, p8)
    else if k == 0x0b then Add(Add(p, p2), p8)
    else if k == 0x0d then Add(Add(p, p4), p8)
    else Add(Add(p2, p4), p8)
  }

  lemma MultiplyByDoubling(x: bv8)
    ensures Multiply(x, 0x09) == Plus(x, Xtime(Xtime(Xtime(x))))
    ensures Multiply(x, 0x0b) == Plus(Plus(x, Xtime(x)), Xtime(Xtime(Xtime(x))))
    ensures Multiply(x, 0x0d) == Plus(Plus(x, Xtime(Xtime(x))), Xtime(Xtime(Xtime(x))))
    ensures Multiply(x, 0x0e) == Plus(Plus(Xtime(x), Xtime(Xtime(x))), Xtime(Xtime(Xtime(x))))
  {
  }

  lemma ScaleMultiplies(p: Column, k: bv8)
    requires k in {0x09, 0x0b, 0x0d, 0x0e}
    ensures Scale(p, k) == Column(Multiply(p.a, k), Multiply(p.b, k), Multiply(p.c, k), Multiply(p.d, k))
  {
    hide Multiply, Xtime, Plus;
    MultiplyByDoubling(p.a);
    MultiplyByDoubling(p.b);
    MultiplyByDoubling(p.c);
    MultiplyByDoubling(p.d);
  }

  lemma ScaleOfAdd(p: Column, q: Column, k: bv8)
    ensures Scale(Add(p, q), k) == Add(Scale(p, k), Scale(q, k))
  {
    hide Add, Double;
    var p2, q2 := Double(p), Double(q);
    var p4, q4 := Double(p2), Double(q2);
    var p8, q8 := Double(p4), Double(q4);
    DoubleOfAdd(p, q);
    DoubleOfAdd(p2, q2);
    DoubleOfAdd(p4, q4);
    SwapColumns(p, q, p8, q8);
    SwapColumns(p, q, p2, q2);
    SwapColumns(p, q, p4, q4);
    SwapColumns(p2, q2, p4, q4);
    SwapColumns(Add(p, p2), Add(q, q2), p8, q8);
    SwapColumns(Add(p, p4), Add(q, q4), p8, q8);
    SwapColumns(Add(p2, p4), Add(q2, q4), p8, q8);
  }

  /** The sum of a column's multiples, each rotated into place. */
  function InvSum(p: Column): Column {
    var once := Rotate(Scale(p, 0x0b));
    var twice := Rotate(Rotate(Scale(p, 0x0d)));
    var thrice := Rotate(Rotate(Rotate(Scale(p, 0x09))));
    Add(Add(Add(Scale(p, 0x0e), once), twice), thrice)
  }

  lemma InvMixIsSum(p: Column)
    ensures InvMixColumn(p) == InvSum(p)
  {
    hide Multiply, Scale, Plus;
    ScaleMultiplies(p, 0x0e);
    ScaleMultiplies(p, 0x0b);
    ScaleMultiplies(p, 0x0d);
    ScaleMultiplies(p, 0x09);
    var a, b, c, d := p.a, p.b, p.c, p.d;
    Turn(Multiply(a, 0x09), Multiply(b, 0x0e), Multiply(c, 0x0b), Multiply(d, 0x0d));
    Turn(Multiply(a, 0x0d), Multiply(b, 0x09), Multiply(c, 0x0e), Multiply(d, 0x0b));
    Turn(Multiply(b, 0x09), Multiply(c, 0x0e), Multiply(d, 0x0b), Multiply(a, 0x0d));
    Turn(Multiply(a, 0x0b), Multiply(b, 0x0d), Multiply(c, 0x09), Multiply(d, 0x0e));
    Turn(Multiply(b, 0x0d), Multiply(c, 0x09), Multiply(d, 0x0e), Multiply(a, 0x0b));
    Turn(Multiply(c, 0x09), Multiply(d, 0x0e), Multiply(a, 0x0b), Multiply(b, 0x0d));
  }

  lemma InvMixOfAdd(p: Column, q: Column)
    ensures InvMixColumn(Add(p, q)) == Add(InvMixColumn(p), InvMixColumn(q))
  {
    hide Add, Scale, Rotate, InvMixColumn;
    InvMixIsSum(p);
    InvMixIsSum(q);
    InvMixIsSum(Add(p, q));
    ScaleOfAdd(p, q, 0x0e);
    ScaleOfAdd(p, q, 0x0b);
    ScaleOfAdd(p, q, 0x0d);
    ScaleOfAdd(p, q, 0x09);
    var p1, q1 := Scale(p, 0x0b), Scale(q, 0x0b);
    var p2, q2 := Scale(p, 0x0d), Scale(q, 0x0d);
    var p3, q3 := Scale(p, 0x09), Scale(q, 0x09);
    RotateOfAdd(p1, q1);
    RotateOfAdd(p2, q2);
    RotateOfAdd(Rotate(p2), Rotate(q2));
    RotateOfAdd(p3, q3);
    RotateOfAdd(Rotate(p3), Rotate(q3));
    RotateOfAdd(Rotate(Rotate(p3)), Rotate(Rotate(q3)));
    var r1, s1 := Rotate(p1), Rotate(q1);
    var r2, s2 := Rotate(Rotate(p2)), Rotate(Rotate(q2));
    var r3, s3 := Rotate(Rotate(Rotate(p3))), Rotate(Rotate(Rotate(q3)));
    var p0, q0 := Scale(p, 0x0e), Scale(q, 0x0e);
    SwapColumns(p0, q0, r1, s1);
    SwapColumns(Add(p0, r1), Add(q0, s1), r2, s2);
    SwapColumns(Add(Add(p0, r1), r2), Add(Add(q0, s1), s2), r3, s3);
  }

  lemma MixUnitA(x: bv8)
    ensures InvMixColumn(MixColumn(Column(x, 0, 0, 0))) == Column(x, 0, 0, 0)
  {
  }

  lemma MixUnitB(x: bv8)
    ensures InvMixColumn(MixColumn(Column(0, x, 0, 0))) == Column(0, x, 0, 0)
  {
  }

  lemma MixUnitC(x: bv8)
    ensures InvMixColumn(MixColumn(Column(0, 0, x, 0))) == Column(0, 0, x, 0)
  {
  }

  lemma MixUnitD(x: bv8)
    ensures InvMixColumn(MixColumn(Column(0, 0, 0, x))) == Column(0, 0, 0, x)
  {
  }

  lemma MixInverseOfAdd(p: Column, q: Column)
    requires InvMixColumn(MixColumn(p)) == p && InvMixColumn(MixColumn(q)) == q
    ensures InvMixColumn(MixColumn(Add(p, q))) == Add(p, q)
  {
    hide MixColumn, InvMixColumn;
    MixOfAdd(p, q);
    InvMixOfAdd(MixColumn(p), MixColumn(q));
  }

  lemma SumOfUnits(p: Column)
    ensures Add(Add(Column(p.a, 0, 0, 0), Column(0, p.b, 0, 0)), Add(Column(0, 0, p.c, 0), Column(0, 0, 0, p.d))) == p
  {
  }

  /** The two column maps are inverse, by linearity and the four unit columns. */
  lemma MixColumnInverse(p: Column)
    ensures InvMixColumn(MixColumn(p)) == p
  {
    hide MixColumn, InvMixColumn, Add;
    var a, b := Column(p.a, 0, 0, 0), Column(0, p.b, 0, 0);
    var c, d := Column(0, 0, p.c, 0), Column(0, 0, 0, p.d);
    MixUnitA(p.a);
    MixUnitB(p.b);
    MixUnitC(p.c);
    MixUnitD(p.d);
    MixInverseOfAdd(a, b);
    MixInverseOfAdd(c, d);
    MixInverseOfAdd(Add(a, b), Add(c, d));
    SumOfUnits(p);
  }

  // ---------------------------------------------------------------- the steps of a round

  function Xor(s: Block, k: Block): Block {
    seq(16, i requires 0 <= i < 16 => Plus(s[i], k[i]))
  }

  function SubBytes(s: Block): Block {
    seq(16, i requires 0 <= i < 16 => SubByte(s[i]))
  }

  function InvSubBytes(s: Block): Block {
    seq(16, i requires 0 <= i < 16 => InvSubByte(s[i]))
  }

  /** Row r moves r columns to the left. */
  function ShiftRows(s: Block): Block {
    seq(16, i requires 0 <= i < 16 => s[4 * ((i / 4 + i % 4) % 4) + i % 4])
  }

  /** Row r moves r columns to the right. */
  function InvShiftRows(s: Block): Block {
    seq(16, i requires 0 <= i < 16 => s[4 * ((i / 4 + 4 - i % 4) % 4) + i % 4])
  }

  function GetColumn(s: Block, c: nat): Column
    requires c < 4
  {
    Column(s[4 * c], s[4 * c + 1], s[4 * c + 2], s[4 * c + 3])
  }

  function Bytes4(p: Column): (s: seq<bv8>)
    ensures |s| == 4
  {
    [p.a, p.b, p.c, p.d]
  }

  function OfColumns(p: Column, q: Column, r: Column, s: Column): Block {
    Bytes4(p) + Bytes4(q) + Bytes4(r) + Bytes4(s)
  }

  lemma ColumnsOfColumns(p: Column, q: Column, r: Column, t: Column)
    ensures var s := OfColumns(p, q, r, t);
            GetColumn(s, 0) == p && GetColumn(s, 1) == q && GetColumn(s, 2) == r && GetColumn(s, 3) == t
  {
  }

  lemma OfItsColumns(s: Block)
    ensures OfColumns(GetColumn(s, 0), GetColumn(s, 1), GetColumn(s, 2), GetColumn(s, 3)) == s
  {
  }

  function MixColumns(s: Block): Block {
    OfColumns(MixColumn(GetColumn(s, 0)), MixColumn(GetColumn(s, 1)),
              MixColumn(GetColumn(s, 2)), MixColumn(GetColumn(s, 3)))
  }

  function InvMixColumns(s: Block): Block {
    OfColumns(InvMixColumn(GetColumn(s, 0)), InvMixColumn(GetColumn(s, 1)),
              InvMixColumn(GetColumn(s, 2)), InvMixColumn(GetColumn(s, 3)))
  }

  lemma PlusTwice(x: bv8, y: bv8)
    ensures Plus(Plus(x, y), y) == x
  {
  }

  lemma XorTwice(s: Block, k: Block)
    ensures Xor(Xor(s, k), k) == s
  {
    hide Plus;
    forall i | 0 <= i < 16 ensures Xor(Xor(s, k), k)[i] == s[i] {
      PlusTwice(s[i], k[i]);
    }
  }

  lemma SubBytesInverse(s: Block)
    ensures InvSubBytes(SubBytes(s)) == s
  {
    hide SubByte, InvSubByte;
    forall i | 0 <= i < 16 ensures InvSubBytes(SubBytes(s))[i] == s[i] {
      SubByteInverse(s[i]);
    }
  }

  lemma ShiftRowsInverse(s: Block)
    ensures InvShiftRows(ShiftRows(s)) == s
  {
  }

  lemma MixColumnsInverse(s: Block)
    ensures InvMixColumns(MixColumns(s)) == s
  {
    hide MixColumn, InvMixColumn, GetColumn, OfColumns;
    var p, q, r, t := GetColumn(s, 0), GetColumn(s, 1), GetColumn(s, 2), GetColumn(s, 3);
    MixColumnInverse(p);
    MixColumnInverse(q);
    MixColumnInverse(r);
    MixColumnInverse(t);
    ColumnsOfColumns(MixColumn(p), MixColumn(q), MixColumn(r), MixColumn(t));
    OfItsColumns(s);
  }

  // ---------------------------------------------------------------- the cipher

  const ROUNDS := 10

  /** Eleven round keys. */
  type Schedule = s: seq<bv8> | |s| == 176 witness seq(176, _ => 0)

  function RoundKey(rk: Schedule, round: nat): Block
    requires round <= ROUNDS
  {
    rk[16 * round..16 * round + 16]
  }

  /** The state after the round key of round `r` is added, for the rounds before the last. */
  function Rounds(rk: Schedule, s: Block, r: nat): Block
    requires r < ROUNDS
  {
    if r == 0 then Xor(s, RoundKey(rk, 0))
    else Xor(MixColumns(ShiftRows(SubBytes(Rounds(rk, s, r - 1)))), RoundKey(rk, r))
  }

  function Cipher(rk: Schedule, s: Block): Block {
    Xor(ShiftRows(SubBytes(Rounds(rk, s, ROUNDS - 1))), RoundKey(rk, ROUNDS))
  }

  /** The state of the inverse cipher once round `r` is undone, from the top down. */
  function InvRounds(rk: Schedule, s: Block, r: nat): Block
    requires 1 <= r <= ROUNDS
    decreases ROUNDS - r
  {
    if r == ROUNDS then Xor(s, RoundKey(rk, ROUNDS))
    else InvMixColumns(Xor(InvSubBytes(InvShiftRows(InvRounds(rk, s, r + 1))), RoundKey(rk, r)))
  }

  function InvCipher(rk: Schedule, s: Block): Block {
    Xor(InvSubBytes(InvShiftRows(InvRounds(rk, s, 1))), RoundKey(rk, 0))
  }

  /** On the way back each round meets the state it had on the way out. */
  lemma {:induction false} InvRoundsMeetsRounds(rk: Schedule, s: Block, r: nat)
    requires 1 <= r <= ROUNDS
    ensures InvRounds(rk, Cipher(rk, s), r) == ShiftRows(SubBytes(Rounds(rk, s, r - 1)))
    decreases ROUNDS - r
  {
    hide Xor, SubBytes, InvSubBytes, ShiftRows, InvShiftRows, MixColumns, InvMixColumns, RoundKey;
    if r == ROUNDS {
      XorTwice(ShiftRows(SubBytes(Rounds(rk, s, ROUNDS - 1))), RoundKey(rk, ROUNDS));
    } else {
      InvRoundsMeetsRounds(rk, s, r + 1);
      var here := Rounds(rk, s, r);
      ShiftRowsInverse(SubBytes(here));
      SubBytesInverse(here);
      var mixed := ShiftRows(SubBytes(Rounds(rk, s, r - 1)));
      XorTwice(MixColumns(mixed), RoundKey(rk, r));
      MixColumnsInverse(mixed);
    }
  }

  /** The inverse cipher undoes the cipher, for every state and every schedule. */
  lemma CipherInverse(rk: Schedule, s: Block)
    ensures InvCipher(rk, Cipher(rk, s)) == s
  {
    hide Xor, SubBytes, InvSubBytes, ShiftRows, InvShiftRows, RoundKey, Cipher, InvRounds;
    InvRoundsMeetsRounds(rk, s, 1);
    var first := Rounds(rk, s, 0);
    ShiftRowsInverse(SubBytes(first));
    SubBytesInverse(first);
    XorTwice(s, RoundKey(rk, 0));
  }
}
