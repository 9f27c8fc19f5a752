/** Quotients and remainders by a variable divisor. */
module Arithmetic {
  function Min(a: nat, b: nat): nat {
    if a <= b then a else b
  }

  lemma QuotientIsUnique(q: int, r: nat, q': int, r': nat, n: nat)
    requires r < n && r' < n && q * n + r == q' * n + r'
    ensures q == q' && r == r'
  {
    assert (q - q') * n == r' - r;
    if q > q' {
      AtLeastOnce(q - q', n);
    } else if q < q' {
      AtLeastOnce(q' - q, n);
    }
  }

  lemma AtLeastOnce(k: nat, n: nat)
    requires k >= 1
    ensures k * n >= n
  {
  }

  function Quotient(v: nat, n: nat): nat
    requires n >= 1
  {
    v / n
  }

  lemma Divide(v: nat, n: nat)
    requires n >= 1
    ensures v == (v / n) * n + v % n && v % n < n
  {
  }

  lemma DivisionIs(v: nat, n: nat, q: nat, r: nat)
    requires v == q * n + r && r < n
    ensures v / n == q && v % n == r
  {
    Divide(v, n);
    QuotientIsUnique(v / n, v % n, q, r, n);
  }

  /** Dividing by twice a number is halving first. */
  lemma DivideTwice(v: nat, n: nat)
    requires n >= 1
    ensures v / (2 * n) == (v / 2) / n && v % (2 * n) == 2 * ((v / 2) % n) + v % 2
  {
    var q, r := (v / 2) / n, (v / 2) % n;
    Divide(v / 2, n);
    assert v == 2 * (q * n + r) + v % 2;
    assert 2 * (q * n) == q * (2 * n);
    DivisionIs(v, 2 * n, q, 2 * r + v % 2);
  }

  lemma Double(p: nat, x: nat)
    ensures (2 * p) * x == 2 * (p * x)
  {
  }

  lemma Monotone(a: nat, b: nat, n: nat)
    requires a <= b
    ensures a * n <= b * n
  {
  }

  /** A digit and a multiple below a bound. */
  lemma DigitsFit(v: nat, p: nat, w: nat, q: nat)
    requires v < p && w < q
    ensures v + p * w < p * q
  {
    Monotone(w + 1, q, p);
    Commute(w + 1, p);
    Commute(q, p);
    Distribute(p, w);
  }

  lemma Commute(a: nat, b: nat)
    ensures a * b == b * a
  {
  }

  lemma Distribute(p: nat, w: nat)
    ensures p * (w + 1) == p * w + p
  {
  }

  /** Dividing one less than a product. */
  lemma OneLess(p: nat, q: nat)
    requires p >= 1 && q >= 1
    ensures (p * q - 1) / p == q - 1
  {
    Commute(p, q);
    Distribute(p, q - 1);
    Commute(p, q - 1);
    DivisionIs(p * q - 1, p, q - 1, p - 1);
  }

  lemma RemainderIsSmaller(v: nat, n: nat)
    requires n >= 1
    ensures v % n <= v
  {
    if v < n {
      DivisionIs(v, n, 0, v);
    }
  }
}
