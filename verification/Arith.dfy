/** Facts of integer arithmetic that the solver is better given than asked for. */
module Arith {

  lemma MulDouble(a: int, p: int)
    ensures a * (2 * p) == 2 * (a * p)
  {
  }

  lemma MulAssoc(a: int, b: int, c: int)
    ensures (a * b) * c == a * (b * c)
  {
  }

  lemma MulDistrib(a: int, b: int, c: int)
    ensures (a + b) * c == a * c + b * c
  {
  }

  lemma MulMono(a: int, b: int, c: nat)
    requires a <= b
    ensures a * c <= b * c
  {
    MulDistrib(a, b - a, c);
    MulNonNeg(b - a, c);
  }

  lemma MulNonNeg(a: nat, c: nat)
    ensures a * c >= 0
  {
  }

  lemma MulBelow(a: nat, m: nat, b: nat)
    requires a < m
    ensures a * b + b <= m * b
  {
    MulDistrib(a, 1, b);
    MulMono(a + 1, m, b);
  }

  /** Quotient and remainder are determined by v == q * p + r with 0 <= r < p. */
  lemma DivModUnique(q: int, r: int, p: int, v: int)
    requires p > 0 && 0 <= r < p && v == q * p + r
    ensures v / p == q && v % p == r
  {
    var d := v / p - q;
    MulDistrib(q, d, p);
    assert d * p == r - v % p;
    assert d >= 1 ==> d * p >= p by { if d >= 1 { MulMono(1, d, p); } }
    assert d <= -1 ==> d * p <= -p by { if d <= -1 { MulMono(d, -1, p); } }
  }

  lemma DivNonNeg(a: nat, p: nat)
    requires p > 0
    ensures 0 <= a / p
  {
    var q := a / p;
    if q <= -1 { MulMono(q, -1, p); }
  }

  lemma DivAtLeast(c: int, k: int, p: nat)
    requires p > 0 && c >= k * p
    ensures c / p >= k
  {
    if c / p < k {
      MulMono(c / p + 1, k, p);
      MulDistrib(c / p, 1, p);
    }
  }

  lemma HalveMod(v: int, p: int)
    requires p > 0
    ensures v % (2 * p) == 2 * ((v / 2) % p) + v % 2
  {
    var h := v / 2;
    MulDouble(h / p, p);
    DivModUnique(h / p, 2 * (h % p) + v % 2, 2 * p, v);
  }

  /** Reduction modulo a multiple of p does not disturb the residue modulo p. */
  lemma LowSum(v: int, c: int, p: int, r: int)
    requires p > 0 && r > 0 && p * r > 0
    ensures (v % (p * r) + c) % p == (v + c) % p
  {
    var q := v / (p * r);
    var w := v % (p * r) + c;
    MulAssoc(q, r, p);
    MulDistrib(q * r, w / p, p);
    DivModUnique(q * r + w / p, w % p, p, v + c);
  }

  lemma ScaleAdd(buf: nat, p: nat, z: nat, b: nat, c: nat)
    requires p > 0 && z > 0 && p * z > 0 && buf % p == b && c < z
    ensures (buf * z + c) % (p * z) == b * z + c
  {
    var a := buf / p;
    MulDistrib(a * p, b, z);
    MulAssoc(a, p, z);
    MulBelow(b, p, z);
    MulNonNeg(b, z);
    DivModUnique(a, b * z + c, p * z, buf * z + c);
  }

  lemma SplitResidue(buf: nat, p: nat, q: nat, hi: nat, lo: nat)
    requires p > 0 && q > 0 && p * q > 0 && hi < p && lo < q && buf % (p * q) == hi * q + lo
    ensures buf / q % p == hi && buf % q == lo
  {
    var a := buf / (p * q);
    MulAssoc(a, p, q);
    MulDistrib(a * p, hi, q);
    DivModUnique(a * p + hi, lo, q, buf);
    DivModUnique(a, hi, p, a * p + hi);
  }

  lemma DivisibleSum(a: int, b: int, d: int)
    requires d > 0 && a % d == 0 && b % d == 0
    ensures (a + b) % d == 0
  {
    MulDistrib(a / d, b / d, d);
    DivModUnique(a / d + b / d, 0, d, a + b);
  }

  /** Pairing the smaller with the greater, and the greater with the smaller, gives the least total. */
  lemma Rearrange(fa: nat, fb: nat, la: nat, lb: nat)
    requires fa <= fb && la <= lb
    ensures fa * lb + fb * la <= fa * la + fb * lb
  {
    var d: nat, e: nat := fb - fa, lb - la;
    MulNonNeg(d, e);
    MulDistrib(fa, d, la);
    MulDistrib(fa, d, lb);
    MulDistrib(la, e, d);
    assert lb * d == d * lb && la * d == d * la && e * d == d * e;
  }
}
