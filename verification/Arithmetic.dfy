/** Products and remainders of integers that the verifier does not find by itself. */
module Arithmetic {

  lemma MulMono(a: int, b: int, m: nat)
    requires a <= b
    ensures a * m <= b * m
  {
  }

  lemma MulOne(a: int, m: nat)
    requires a >= 0 && m >= 1
    ensures a * m >= a
  {
    MulMono(0, a, m - 1);
    assert a * m == a * (m - 1) + a;
  }

  lemma MulNegative(a: int, m: nat)
    requires a <= 0 && m >= 1
    ensures a * m <= a
  {
    MulMono(a, 0, m - 1);
    assert a * m == a * (m - 1) + a;
  }

  lemma DigitsOf(k: int, p: nat)
    requires p > 0
    ensures k == (k / p) * p + k % p && 0 <= k % p < p
  {
  }

  lemma ResidueUnique(a: int, b: int, m: nat, r: nat, s: nat)
    requires a * m + r == b * m + s && r < m && s < m
    ensures a == b && r == s
  {
    assert (a + 1) * m == a * m + m && (b + 1) * m == b * m + m;
    if a < b { MulMono(a + 1, b, m); }
    if b < a { MulMono(b + 1, a, m); }
  }

  lemma DigitReadInt(i: int, p: nat, r: nat)
    requires r < p
    ensures (i * p + r) / p == i && (i * p + r) % p == r
  {
    var k := i * p + r;
    DigitsOf(k, p);
    ResidueUnique(k / p, i, p, k % p, r);
  }

  lemma SameResidue(x: int, q: int, m: nat)
    requires m > 0
    ensures (x - q * m) % m == x % m
  {
    var r := x % m;
    assert x - q * m == (x / m - q) * m + r by {
      assert x == (x / m) * m + r;
      assert (x / m - q) * m == (x / m) * m - q * m;
    }
    ResidueUnique((x - q * m) / m, x / m - q, m, (x - q * m) % m, r);
  }

  lemma SmallOverLarge(x: nat, m: nat)
    requires x < m
    ensures x / m == 0 && x % m == x
  {
  }

  lemma QuotientBetween(r: int, s: nat)
    requires s > 0
    ensures r >= 0 ==> 0 <= r / s <= r
    ensures r < 0 ==> r <= r / s < 0
  {
    var q := r / s;
    DigitsOf(r, s);
    assert (r - 1) * s == r * s - s;
    if r >= 0 {
      if q < 0 { MulMono(q, -1, s); }
      if q > r { MulMono(r + 1, q, s); MulOne(r + 1, s); }
    } else {
      if q >= 0 { MulMono(0, q, s); }
      if q < r { MulMono(q, r - 1, s); MulNegative(r, s); }
    }
  }
}
