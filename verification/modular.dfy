// Integer arithmetic shared by every field of the model: Euclidean division
// facts, congruence modulo a prime, and the inverse given by the extended
// Euclidean algorithm. Field elements are modelled by integer
// representatives; two representatives denote the same element when they are
// congruent modulo the field's characteristic.
module Modular {

  /** A modulus of a prime field: any integer above one. */
  type Modulus = m: int | m > 1 witness 2

  /** `a` and `b` denote the same residue modulo `m`. */
  predicate Congruent(a: int, b: int, m: int)
    requires m > 0
  {
    (a - b) % m == 0
  }

  /** Euclidean division is unique: any decomposition n = q*m + r with
      0 <= r < m is the one `/` and `%` compute. */
  lemma DivModUnique(n: int, m: int, q: int, r: int)
    requires m > 0 && 0 <= r < m && n == q * m + r
    ensures n / m == q && n % m == r
  {
    var q' := n / m;
    var r' := n % m;
    assert n == q' * m + r';
    var d := q' - q;
    assert d * m == r - r' by {
      assert q' * m - q * m == d * m;
    }
    if d >= 1 {
      MulAtLeast(d, m);
    } else if d <= -1 {
      MulAtLeast(-d, m);
    }
  }

  lemma MulAtLeast(a: int, m: int)
    requires a >= 1 && m > 0
    ensures a * m >= m
  {
    assert a * m == m + (a - 1) * m;
    assert (a - 1) * m >= 0;
  }

  /** Adding a multiple of `m` does not change the residue. */
  lemma ModAddMultiple(a: int, k: int, m: int)
    requires m > 0
    ensures (a + k * m) % m == a % m
  {
    var q := a / m;
    assert a == q * m + a % m;
    assert a + k * m == (q + k) * m + a % m;
    DivModUnique(a + k * m, m, q + k, a % m);
  }

  /** Congruence is an equivalence relation. */
  lemma CongruentRefl(a: int, m: int)
    requires m > 0
    ensures Congruent(a, a, m)
  {
  }

  lemma CongruentSym(a: int, b: int, m: int)
    requires m > 0 && Congruent(a, b, m)
    ensures Congruent(b, a, m)
  {
    var k := (a - b) / m;
    assert a - b == k * m;
    ModAddMultiple(0, -k, m);
    assert b - a == 0 + (-k) * m;
  }

  lemma CongruentTrans(a: int, b: int, c: int, m: int)
    requires m > 0 && Congruent(a, b, m) && Congruent(b, c, m)
    ensures Congruent(a, c, m)
  {
    var k1 := (a - b) / m;
    var k2 := (b - c) / m;
    assert a - b == k1 * m;
    assert b - c == k2 * m;
    assert a - c == 0 + (k1 + k2) * m;
    ModAddMultiple(0, k1 + k2, m);
  }

  /** Adding the same integer to congruent representatives keeps them
      congruent. */
  lemma CongruentAdd(a: int, b: int, c: int, m: int)
    requires m > 0 && Congruent(a, b, m)
    ensures Congruent(a + c, b + c, m) && Congruent(c + a, c + b, m)
  {
    assert (a + c) - (b + c) == a - b;
    assert (c + a) - (c + b) == a - b;
  }

  /** Congruent representatives multiplied by the same integer stay congruent. */
  lemma CongruentMul(a: int, b: int, c: int, m: int)
    requires m > 0 && Congruent(a, b, m)
    ensures Congruent(a * c, b * c, m)
  {
    var k := (a - b) / m;
    assert a - b == k * m;
    assert a * c - b * c == (a - b) * c;
    assert a * c - b * c == 0 + (k * c) * m;
    ModAddMultiple(0, k * c, m);
  }

  /** Extended Euclidean algorithm on naturals: returns (g, s, t) with
      s*a + t*b == g, where g is the greatest common divisor. */
  function ExtGcd(a: nat, b: nat): (r: (nat, int, int))
    decreases b
    ensures r.1 * a + r.2 * b == r.0
    ensures a > 0 || b > 0 ==> r.0 > 0
  {
    if b == 0 then (a, 1, 0)
    else
      var r' := ExtGcd(b, a % b);
      var q := a / b;
      assert a == q * b + a % b;
      assert r'.1 * b + r'.2 * (a % b) == r'.0;
      assert r'.2 * a + (r'.1 - q * r'.2) * b == r'.1 * b + r'.2 * (a - q * b);
      (r'.0, r'.2, r'.1 - q * r'.2)
  }

  /** `x` has an inverse modulo `m`: the gcd of its residue and `m` is one. */
  predicate Invertible(x: int, m: int)
    requires m > 1
  {
    ExtGcd(x % m, m).0 == 1
  }

  /** The inverse of `x` modulo `m` (the field inversion of every base field
      in the model); zero, or any other non-invertible value, gets a
      residue with no inverse property. */
  function Inverse(x: int, m: int): (r: int)
    requires m > 1
    ensures 0 <= r < m
    ensures Invertible(x, m) ==> Congruent(x * r, 1, m)
  {
    var e := ExtGcd(x % m, m);
    var s := e.1;
    var r := s % m;
    if Invertible(x, m) then
      InverseCorrect(x, m, s, e.2, r);
      r
    else
      r
  }

  lemma InverseCorrect(x: int, m: int, s: int, t: int, r: int)
    requires m > 1 && s * (x % m) + t * m == 1 && r == s % m
    ensures Congruent(x * r, 1, m)
  {
    var k := InverseWitness(x, m, s, t, r);
    MultipleIsZero(x * r - 1, k, m);
  }

  /** x * r - 1 is a multiple of m when s is a Bezout coefficient of x's
      residue and r is the residue of s. */
  lemma InverseWitness(x: int, m: int, s: int, t: int, r: int) returns (k: int)
    requires m > 1 && s * (x % m) + t * m == 1 && r == s % m
    ensures x * r - 1 == k * m
  {
    var a := x % m;
    var qx := x / m;
    var qs := s / m;
    k := qx * r - a * qs - t;
    assert x == qx * m + a;
    assert s == qs * m + r;
    InverseAlgebra(x, r, a, qx, s, qs, t, m);
  }

  lemma MultipleIsZero(e: int, k: int, m: int)
    requires m > 0 && e == k * m
    ensures e % m == 0
  {
    ModAddMultiple(0, k, m);
  }

  lemma InverseAlgebra(x: int, r: int, a: int, qx: int, s: int, qs: int, t: int, m: int)
    requires x == qx * m + a && s == qs * m + r && s * a + t * m == 1
    ensures x * r - 1 == (qx * r - a * qs - t) * m
  {
    assert x * r == qx * m * r + a * r;
    assert a * r == a * s - a * qs * m;
  }
}
