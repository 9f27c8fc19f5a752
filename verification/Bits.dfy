/** Numbers as bits, least significant first, and the bit operators on unbounded numbers. */
module Bits {
  import opened Arithmetic
  import opened Bytes

  type Bits = seq<bool>

  function Pow2(n: nat): (p: nat)
    ensures p >= 1
    decreases n
  {
    if n == 0 then 1 else 2 * Pow2(n - 1)
  }

  /** The shifts, and the part of a number below a place. */
  function Shl(v: nat, n: nat): nat {
    Pow2(n) * v
  }

  function Shr(v: nat, n: nat): nat {
    Quotient(v, Pow2(n))
  }

  function Low(v: nat, n: nat): (r: nat)
    ensures r < Pow2(n)
  {
    v % Pow2(n)
  }

  /** The lowest `n` bits of a number. */
  function BitsOf(v: nat, n: nat): (bits: Bits)
    ensures |bits| == n
    decreases n
  {
    if n == 0 then [] else [v % 2 == 1] + BitsOf(v / 2, n - 1)
  }

  function ValueOf(bits: Bits): (v: nat)
    ensures v < Pow2(|bits|)
    decreases |bits|
  {
    if bits == [] then 0 else (if bits[0] then 1 else 0) + 2 * ValueOf(bits[1..])
  }

  lemma {:induction false} Pow2Adds(m: nat, n: nat)
    ensures Pow2(m + n) == Pow2(m) * Pow2(n)
    decreases m
  {
    if m == 0 {
    } else {
      Pow2Adds(m - 1, n);
      assert 2 * (Pow2(m - 1) * Pow2(n)) == (2 * Pow2(m - 1)) * Pow2(n);
    }
  }

  lemma {:induction false} ValueOfBitsOf(v: nat, n: nat)
    requires v < Pow2(n)
    ensures ValueOf(BitsOf(v, n)) == v
    decreases n
  {
    if n == 0 {
    } else {
      ValueOfBitsOf(v / 2, n - 1);
      assert BitsOf(v, n)[1..] == BitsOf(v / 2, n - 1);
    }
  }

  lemma {:induction false} BitsOfValueOf(bits: Bits)
    ensures BitsOf(ValueOf(bits), |bits|) == bits
    decreases |bits|
  {
    if bits == [] {
    } else {
      BitsOfValueOf(bits[1..]);
    }
  }

  /** The bits of a sum of disjoint parts are the bits of the parts. */
  lemma {:induction false} BitsOfParts(v: nat, n: nat, w: nat, m: nat)
    requires v < Pow2(n)
    ensures BitsOf(v + Shl(w, n), n + m) == BitsOf(v, n) + BitsOf(w, m)
    decreases n
  {
    if n == 0 {
    } else {
      BitsOfParts(v / 2, n - 1, w, m);
      var whole := v + Pow2(n) * w;
      Double(Pow2(n - 1), w);
      assert whole % 2 == v % 2 && whole / 2 == v / 2 + Pow2(n - 1) * w;
    }
  }

  lemma {:induction false} ValueOfParts(a: Bits, b: Bits)
    ensures ValueOf(a + b) == ValueOf(a) + Shl(ValueOf(b), |a|)
    decreases |a|
  {
    if a == [] {
      assert a + b == b;
    } else {
      assert (a + b)[0] == a[0] && (a + b)[1..] == a[1..] + b;
      ValueOfParts(a[1..], b);
      Double(Pow2(|a| - 1), ValueOf(b));
    }
  }

  /** A run of the bits of a number. */
  lemma {:induction false} BitsInside(v: nat, n: nat, i: nat, k: nat)
    requires i + k <= n
    ensures BitsOf(v, n)[i..i + k] == BitsOf(Shr(v, i), k)
    decreases n
  {
    if i == 0 {
      BitsPrefix(v, n, k);
    } else {
      BitsInside(v / 2, n - 1, i - 1, k);
      assert BitsOf(v, n)[i..i + k] == BitsOf(v / 2, n - 1)[i - 1..i - 1 + k];
      DivideTwice(v, Pow2(i - 1));
    }
  }

  lemma {:induction false} BitsPrefix(v: nat, n: nat, k: nat)
    requires k <= n
    ensures BitsOf(v, n)[..k] == BitsOf(v, k) && BitsOf(v, n)[0..k] == BitsOf(v, k)
    decreases k
  {
    if k == 0 {
    } else {
      BitsPrefix(v / 2, n - 1, k - 1);
      assert BitsOf(v, n)[..k] == [v % 2 == 1] + BitsOf(v / 2, n - 1)[..k - 1];
    }
  }

  /** Only the lowest bits count. */
  lemma BitsOfRemainder(v: nat, n: nat)
    ensures BitsOf(Low(v, n), n) == BitsOf(v, n)
  {
    hide BitsOf, Pow2;
    Divide(v, Pow2(n));
    BitsOfLow(v, n, v / Pow2(n), v % Pow2(n));
  }

  lemma BitsOfLow(v: nat, n: nat, q: nat, r: nat)
    requires v == q * Pow2(n) + r && r < Pow2(n)
    ensures BitsOf(r, n) == BitsOf(v, n)
  {
    hide Pow2, BitsOf;
    BitsOfParts(r, n, q, 0);
    Commute(q, Pow2(n));
    assert BitsOf(r, n) + BitsOf(q, 0) == BitsOf(r, n);
  }

  // ---------------------------------------------------------------- the operators

  /** `|` on numbers. */
  function Or(x: nat, y: nat): nat
    decreases x + y
  {
    if x == 0 && y == 0 then 0
    else (if x % 2 == 1 || y % 2 == 1 then 1 else 0) + 2 * Or(x / 2, y / 2)
  }

  /** `&` on numbers. */
  function And(x: nat, y: nat): nat
    decreases x
  {
    if x == 0 then 0 else (if x % 2 == 1 && y % 2 == 1 then 1 else 0) + 2 * And(x / 2, y / 2)
  }

  lemma {:induction false} OrOfNothing(y: nat)
    ensures Or(0, y) == y
    decreases y
  {
    if y == 0 {
    } else {
      OrOfNothing(y / 2);
    }
  }

  /** Or with a number shifted past the other is addition. */
  lemma {:induction false} OrAdds(x: nat, n: nat, y: nat)
    requires x < Pow2(n)
    ensures Or(x, Shl(y, n)) == x + Shl(y, n)
    decreases n
  {
    if n == 0 {
      OrOfNothing(y);
    } else {
      var s := Pow2(n) * y;
      Double(Pow2(n - 1), y);
      OrAdds(x / 2, n - 1, y);
      if x == 0 && s == 0 {
      } else {
        assert s % 2 == 0 && s / 2 == Pow2(n - 1) * y;
      }
    }
  }

  lemma LowTwice(x: nat, n: nat)
    requires n > 0
    ensures Low(x, n) == 2 * Low(x / 2, n - 1) + x % 2
  {
    DivideTwice(x, Pow2(n - 1));
  }

  /** And with a row of ones is a remainder. */
  lemma {:induction false} AndTakesRemainder(n: nat, x: nat)
    ensures And(Pow2(n) - 1, x) == Low(x, n)
    decreases n
  {
    hide Low;
    if n == 0 {
      NothingLow(x);
    } else {
      AndTakesRemainder(n - 1, x / 2);
      LowTwice(x, n);
      var p := Pow2(n - 1);
      assert (2 * p - 1) / 2 == p - 1 && (2 * p - 1) % 2 == 1;
    }
  }

  lemma NothingLow(x: nat)
    ensures Low(x, 0) == 0
  {
  }

  // ---------------------------------------------------------------- bytes

  function DataBits(data: seq<byte>): (bits: Bits)
    ensures |bits| == 8 * |data|
    decreases |data|
  {
    if data == [] then [] else DataBits(data[..|data| - 1]) + BitsOf(data[|data| - 1], 8)
  }

  lemma {:induction false} DataBitsAt(data: seq<byte>, k: nat)
    requires k < |data|
    ensures DataBits(data)[8 * k..8 * k + 8] == BitsOf(data[k], 8)
    decreases |data|
  {
    hide BitsOf;
    var n := |data| - 1;
    var s, d := DataBits(data), DataBits(data[..n]);
    assert s == d + BitsOf(data[n], 8);
    hide DataBits;
    if k == n {
    } else {
      DataBitsAt(data[..n], k);
      assert s[0..8 * n] == d;
      SliceOfSlice(s, 0, 8 * n, 8 * k, 8 * k + 8);
    }
  }

  lemma DataBitsGrow(data: seq<byte>, b: byte)
    ensures DataBits(data + [b]) == DataBits(data) + BitsOf(b, 8)
  {
    assert (data + [b])[..|data|] == data;
  }
}
