// The quadratic and cubic extensions below the degree-12 field of BLS12-377:
//   E2 = Fp[u] / (u^2 - 5)      (multiplying by u maps (a0, a1) to (5*a1, a0))
//   E6 = E2[v] / (v^3 - u)
// Base-field elements are integer representatives modulo the BLS12-377
// prime `P`; the ring operations are exact on representatives, and two
// representatives denote the same field element when they are congruent.
module Bls377Tower {
  import opened Modular

  /** The BLS12-377 base-field characteristic. */
  const P: int := 0x01ae3a4617c510eac63b05c06ca1493b1a22d9f300f5138f1ef3622fba094800170b5d44300000008508c00000000001

  /** An inverse of 5 modulo P, used by the multiplication by u^-1. */
  const Inv5: int := 103465770405187637604261093477957413414557405101965864215953705066688187339336329109987555255829344049776128583271

  lemma Inv5Correct()
    ensures 5 * Inv5 == 2 * P + 1
  {
  }

  datatype E2 = E2(A0: int, A1: int)
  {
    function Add(y: E2): E2 { E2(A0 + y.A0, A1 + y.A1) }
    function Sub(y: E2): E2 { E2(A0 - y.A0, A1 - y.A1) }
    function Double(): E2 { E2(2 * A0, 2 * A1) }
    function Neg(): E2 { E2(-A0, -A1) }
    function Mul(y: E2): E2 { E2(A0 * y.A0 + 5 * (A1 * y.A1), A0 * y.A1 + A1 * y.A0) }
    function Square(): E2 { Mul(this) }
    /** Multiplication by the fixed element u = (0, 1), done as a double,
        double, add on the coefficient of u. */
    function MulByNonResidue(): E2 { E2(5 * A1, A0) }
    /** Multiplication by u^-1 = u / 5. */
    function MulByNonResidueInv(): E2 { E2(A1, A0 * Inv5) }
    /** Scaling by a base-field element. */
    function MulByElement(s: int): E2 { E2(A0 * s, A1 * s) }
    /** The norm a0^2 - 5*a1^2 into the base field. */
    function Norm(): int { A0 * A0 - 5 * (A1 * A1) }
    function Inverse(): E2 {
      var m := Modular.Inverse(Norm(), P);
      E2(A0 * m, -(A1 * m))
    }
  }

  const Zero2: E2 := E2(0, 0)
  const One2: E2 := E2(1, 0)

  predicate Congruent2(a: E2, b: E2) {
    Congruent(a.A0, b.A0, P) && Congruent(a.A1, b.A1, P)
  }

  predicate Invertible2(a: E2) {
    Invertible(a.Norm(), P)
  }

  /** u really is the element (0, 1): MulByNonResidue is a multiplication. */
  lemma MulByNonResidueIsMul(a: E2)
    ensures a.MulByNonResidue() == a.Mul(E2(0, 1))
  {
  }

  /** MulByNonResidueInv undoes MulByNonResidue, up to congruence. */
  lemma NonResidueInvRoundTrip(a: E2)
    ensures Congruent2(a.MulByNonResidueInv().MulByNonResidue(), a)
    ensures Congruent2(a.MulByNonResidue().MulByNonResidueInv(), a)
  {
    Inv5Correct();
    assert a.A0 * (5 * Inv5) - a.A0 == 0 + (2 * a.A0) * P;
    ModAddMultiple(0, 2 * a.A0, P);
    assert 5 * a.A1 * Inv5 - a.A1 == 0 + (2 * a.A1) * P;
    ModAddMultiple(0, 2 * a.A1, P);
  }

  /** An element times its conjugate scaled by m is its norm scaled by m. */
  lemma E2MulConjugateScaled(a: E2, m: int)
    ensures a.Mul(E2(a.A0 * m, -(a.A1 * m))) == E2(a.Norm() * m, 0)
  {
    var a0, a1 := a.A0, a.A1;
    assert a0 * (a0 * m) == a0 * a0 * m;
    assert a1 * -(a1 * m) == -(a1 * a1 * m);
    assert (a0 * a0 - 5 * (a1 * a1)) * m == a0 * a0 * m - 5 * (a1 * a1 * m);
    assert a0 * -(a1 * m) == -(a0 * a1 * m);
    assert a1 * (a0 * m) == a0 * a1 * m;
  }

  lemma E2MulInverseExact(a: E2)
    ensures a.Mul(a.Inverse()) == E2(a.Norm() * Modular.Inverse(a.Norm(), P), 0)
  {
    E2MulConjugateScaled(a, Modular.Inverse(a.Norm(), P));
  }

  lemma E2InverseCorrect(a: E2)
    requires Invertible2(a)
    ensures Congruent2(a.Mul(a.Inverse()), One2)
  {
    E2MulInverseExact(a);
    CongruentRefl(0, P);
  }

  // Ring laws of E2 on representatives.
  lemma E2MulUnits(a: E2) ensures a.Mul(One2) == a && a.Mul(Zero2) == Zero2 && Zero2.Mul(a) == Zero2 {}

  lemma E2MulComm(a: E2, b: E2) ensures a.Mul(b) == b.Mul(a) {}
  lemma E2MulAssoc(a: E2, b: E2, c: E2) ensures a.Mul(b).Mul(c) == a.Mul(b.Mul(c)) {
    var a0, a1, b0, b1, c0, c1 := a.A0, a.A1, b.A0, b.A1, c.A0, c.A1;
    assert (a0 * b0 + 5 * (a1 * b1)) * c0 == a0 * b0 * c0 + 5 * (a1 * b1 * c0);
    assert (a0 * b1 + a1 * b0) * c1 == a0 * b1 * c1 + a1 * b0 * c1;
    assert a0 * (b0 * c0 + 5 * (b1 * c1)) == a0 * b0 * c0 + 5 * (a0 * b1 * c1);
    assert a1 * (b0 * c1 + b1 * c0) == a1 * b0 * c1 + a1 * b1 * c0;
    assert (a0 * b0 + 5 * (a1 * b1)) * c1 == a0 * b0 * c1 + 5 * (a1 * b1 * c1);
    assert (a0 * b1 + a1 * b0) * c0 == a0 * b1 * c0 + a1 * b0 * c0;
    assert a0 * (b0 * c1 + b1 * c0) == a0 * b0 * c1 + a0 * b1 * c0;
    assert a1 * (b0 * c0 + 5 * (b1 * c1)) == a1 * b0 * c0 + 5 * (a1 * b1 * c1);
  }
  lemma E2AddMulR(x: E2, y: E2, z: E2) ensures x.Add(y).Mul(z) == x.Mul(z).Add(y.Mul(z)) {}
  lemma E2AddMulL(x: E2, y: E2, z: E2) ensures z.Mul(x.Add(y)) == z.Mul(x).Add(z.Mul(y)) {}
  lemma E2SubMulR(x: E2, y: E2, z: E2) ensures x.Sub(y).Mul(z) == x.Mul(z).Sub(y.Mul(z)) {}
  lemma E2SubMulL(x: E2, y: E2, z: E2) ensures z.Mul(x.Sub(y)) == z.Mul(x).Sub(z.Mul(y)) {}
  lemma E2NrMulR(x: E2, z: E2) ensures x.MulByNonResidue().Mul(z) == x.Mul(z).MulByNonResidue() {}
  lemma E2NrMulL(x: E2, z: E2) ensures z.Mul(x.MulByNonResidue()) == z.Mul(x).MulByNonResidue() {}
  lemma E2NegMulR(x: E2, z: E2) ensures x.Neg().Mul(z) == x.Mul(z).Neg() {}
  lemma E2NegMulL(x: E2, z: E2) ensures z.Mul(x.Neg()) == z.Mul(x).Neg() {}

  datatype E6 = E6(B0: E2, B1: E2, B2: E2)
  {
    function Add(y: E6): E6 { E6(B0.Add(y.B0), B1.Add(y.B1), B2.Add(y.B2)) }
    function Sub(y: E6): E6 { E6(B0.Sub(y.B0), B1.Sub(y.B1), B2.Sub(y.B2)) }
    function Double(): E6 { E6(B0.Double(), B1.Double(), B2.Double()) }
    function Neg(): E6 { E6(B0.Neg(), B1.Neg(), B2.Neg()) }
    /** Schoolbook product in E2[v] / (v^3 - u). */
    function Mul(y: E6): E6 {
      E6(B0.Mul(y.B0).Add(B1.Mul(y.B2).Add(B2.Mul(y.B1)).MulByNonResidue()),
         B0.Mul(y.B1).Add(B1.Mul(y.B0)).Add(B2.Mul(y.B2).MulByNonResidue()),
         B0.Mul(y.B2).Add(B1.Mul(y.B1)).Add(B2.Mul(y.B0)))
    }
    function Square(): E6 { Mul(this) }
    /** Multiplication by v: the limbs rotate and the top one is multiplied
        by u (the "multiply by non-residue" step inlined in E12). */
    function MulByNonResidue(): E6 { E6(B2.MulByNonResidue(), B0, B1) }
    /** Scaling every limb by the same E2 element. */
    function MulByE2(s: E2): E6 { E6(B0.Mul(s), B1.Mul(s), B2.Mul(s)) }
    /** The cofactors of the norm-based inversion (the adjugate). */
    function Adjugate(): E6 {
      E6(B0.Square().Sub(B1.Mul(B2).MulByNonResidue()),
         B2.Square().MulByNonResidue().Sub(B0.Mul(B1)),
         B1.Square().Sub(B0.Mul(B2)))
    }
    /** The norm of the element into E2. */
    function Norm(): E2 {
      var c := Adjugate();
      B0.Mul(c.B0).Add(B2.Mul(c.B1).Add(B1.Mul(c.B2)).MulByNonResidue())
    }
    function Inverse(): E6 { Adjugate().MulByE2(Norm().Inverse()) }
  }

  const Zero6: E6 := E6(Zero2, Zero2, Zero2)
  const One6: E6 := E6(One2, Zero2, Zero2)

  predicate Congruent6(a: E6, b: E6) {
    Congruent2(a.B0, b.B0) && Congruent2(a.B1, b.B1) && Congruent2(a.B2, b.B2)
  }

  predicate Invertible6(a: E6) {
    Invertible2(a.Norm())
  }

  /** Multiplication by v is multiplication by the element (0, 1, 0). */
  lemma E6MulByNonResidueIsMul(a: E6)
    ensures a.MulByNonResidue() == a.Mul(E6(Zero2, One2, Zero2))
  {
  }

  lemma E6MulComm(a: E6, b: E6) ensures a.Mul(b) == b.Mul(a) {}

  lemma E6AddMulR(x: E6, y: E6, z: E6) ensures x.Add(y).Mul(z) == x.Mul(z).Add(y.Mul(z)) {
    E2AddMulR(x.B0, y.B0, z.B0); E2AddMulR(x.B0, y.B0, z.B1); E2AddMulR(x.B0, y.B0, z.B2);
    E2AddMulR(x.B1, y.B1, z.B0); E2AddMulR(x.B1, y.B1, z.B1); E2AddMulR(x.B1, y.B1, z.B2);
    E2AddMulR(x.B2, y.B2, z.B0); E2AddMulR(x.B2, y.B2, z.B1); E2AddMulR(x.B2, y.B2, z.B2);
  }
  lemma E6AddMulL(x: E6, y: E6, z: E6) ensures z.Mul(x.Add(y)) == z.Mul(x).Add(z.Mul(y)) {
    E2AddMulL(x.B0, y.B0, z.B0); E2AddMulL(x.B0, y.B0, z.B1); E2AddMulL(x.B0, y.B0, z.B2);
    E2AddMulL(x.B1, y.B1, z.B0); E2AddMulL(x.B1, y.B1, z.B1); E2AddMulL(x.B1, y.B1, z.B2);
    E2AddMulL(x.B2, y.B2, z.B0); E2AddMulL(x.B2, y.B2, z.B1); E2AddMulL(x.B2, y.B2, z.B2);
  }
  lemma E6SubMulR(x: E6, y: E6, z: E6) ensures x.Sub(y).Mul(z) == x.Mul(z).Sub(y.Mul(z)) {
    E2SubMulR(x.B0, y.B0, z.B0); E2SubMulR(x.B0, y.B0, z.B1); E2SubMulR(x.B0, y.B0, z.B2);
    E2SubMulR(x.B1, y.B1, z.B0); E2SubMulR(x.B1, y.B1, z.B1); E2SubMulR(x.B1, y.B1, z.B2);
    E2SubMulR(x.B2, y.B2, z.B0); E2SubMulR(x.B2, y.B2, z.B1); E2SubMulR(x.B2, y.B2, z.B2);
  }
  lemma E6NegMulR(x: E6, z: E6) ensures x.Neg().Mul(z) == x.Mul(z).Neg() {
    E2NegMulR(x.B0, z.B0); E2NegMulR(x.B0, z.B1); E2NegMulR(x.B0, z.B2);
    E2NegMulR(x.B1, z.B0); E2NegMulR(x.B1, z.B1); E2NegMulR(x.B1, z.B2);
    E2NegMulR(x.B2, z.B0); E2NegMulR(x.B2, z.B1); E2NegMulR(x.B2, z.B2);
  }
  lemma E6NegMulL(x: E6, z: E6) ensures z.Mul(x.Neg()) == z.Mul(x).Neg() {
    E2NegMulL(x.B0, z.B0); E2NegMulL(x.B0, z.B1); E2NegMulL(x.B0, z.B2);
    E2NegMulL(x.B1, z.B0); E2NegMulL(x.B1, z.B1); E2NegMulL(x.B1, z.B2);
    E2NegMulL(x.B2, z.B0); E2NegMulL(x.B2, z.B1); E2NegMulL(x.B2, z.B2);
  }
  lemma E6NrMulR(x: E6, z: E6) ensures x.MulByNonResidue().Mul(z) == x.Mul(z).MulByNonResidue() {}
  lemma E6NrMulL(x: E6, z: E6) ensures z.Mul(x.MulByNonResidue()) == z.Mul(x).MulByNonResidue() {}

  lemma E6MulAssocB0(a: E6, b: E6, c: E6)
    ensures a.Mul(b).Mul(c).B0 == a.Mul(b.Mul(c)).B0
  {
    E2AddMulR(a.B0.Mul(b.B0), a.B1.Mul(b.B2).Add(a.B2.Mul(b.B1)).MulByNonResidue(), c.B0);
    E2NrMulR(a.B1.Mul(b.B2).Add(a.B2.Mul(b.B1)), c.B0);
    E2AddMulR(a.B1.Mul(b.B2), a.B2.Mul(b.B1), c.B0);
    E2AddMulR(a.B0.Mul(b.B1).Add(a.B1.Mul(b.B0)), a.B2.Mul(b.B2).MulByNonResidue(), c.B2);
    E2AddMulR(a.B0.Mul(b.B1), a.B1.Mul(b.B0), c.B2);
    E2NrMulR(a.B2.Mul(b.B2), c.B2);
    E2AddMulR(a.B0.Mul(b.B2).Add(a.B1.Mul(b.B1)), a.B2.Mul(b.B0), c.B1);
    E2AddMulR(a.B0.Mul(b.B2), a.B1.Mul(b.B1), c.B1);
    E2AddMulL(b.B0.Mul(c.B0), b.B1.Mul(c.B2).Add(b.B2.Mul(c.B1)).MulByNonResidue(), a.B0);
    E2NrMulL(b.B1.Mul(c.B2).Add(b.B2.Mul(c.B1)), a.B0);
    E2AddMulL(b.B1.Mul(c.B2), b.B2.Mul(c.B1), a.B0);
    E2AddMulL(b.B0.Mul(c.B2).Add(b.B1.Mul(c.B1)), b.B2.Mul(c.B0), a.B1);
    E2AddMulL(b.B0.Mul(c.B2), b.B1.Mul(c.B1), a.B1);
    E2AddMulL(b.B0.Mul(c.B1).Add(b.B1.Mul(c.B0)), b.B2.Mul(c.B2).MulByNonResidue(), a.B2);
    E2AddMulL(b.B0.Mul(c.B1), b.B1.Mul(c.B0), a.B2);
    E2NrMulL(b.B2.Mul(c.B2), a.B2);
    E2MulAssoc(a.B0, b.B0, c.B0);
    E2MulAssoc(a.B0, b.B1, c.B2);
    E2MulAssoc(a.B0, b.B2, c.B1);
    E2MulAssoc(a.B1, b.B0, c.B2);
    E2MulAssoc(a.B1, b.B1, c.B1);
    E2MulAssoc(a.B1, b.B2, c.B0);
    E2MulAssoc(a.B2, b.B0, c.B1);
    E2MulAssoc(a.B2, b.B1, c.B0);
    E2MulAssoc(a.B2, b.B2, c.B2);
  }

  lemma E6MulAssocB1(a: E6, b: E6, c: E6)
    ensures a.Mul(b).Mul(c).B1 == a.Mul(b.Mul(c)).B1
  {
    E2AddMulR(a.B0.Mul(b.B0), a.B1.Mul(b.B2).Add(a.B2.Mul(b.B1)).MulByNonResidue(), c.B1);
    E2NrMulR(a.B1.Mul(b.B2).Add(a.B2.Mul(b.B1)), c.B1);
    E2AddMulR(a.B1.Mul(b.B2), a.B2.Mul(b.B1), c.B1);
    E2AddMulR(a.B0.Mul(b.B1).Add(a.B1.Mul(b.B0)), a.B2.Mul(b.B2).MulByNonResidue(), c.B0);
    E2AddMulR(a.B0.Mul(b.B1), a.B1.Mul(b.B0), c.B0);
    E2NrMulR(a.B2.Mul(b.B2), c.B0);
    E2AddMulR(a.B0.Mul(b.B2).Add(a.B1.Mul(b.B1)), a.B2.Mul(b.B0), c.B2);
    E2AddMulR(a.B0.Mul(b.B2), a.B1.Mul(b.B1), c.B2);
    E2AddMulL(b.B0.Mul(c.B1).Add(b.B1.Mul(c.B0)), b.B2.Mul(c.B2).MulByNonResidue(), a.B0);
    E2AddMulL(b.B0.Mul(c.B1), b.B1.Mul(c.B0), a.B0);
    E2NrMulL(b.B2.Mul(c.B2), a.B0);
    E2AddMulL(b.B0.Mul(c.B0), b.B1.Mul(c.B2).Add(b.B2.Mul(c.B1)).MulByNonResidue(), a.B1);
    E2NrMulL(b.B1.Mul(c.B2).Add(b.B2.Mul(c.B1)), a.B1);
    E2AddMulL(b.B1.Mul(c.B2), b.B2.Mul(c.B1), a.B1);
    E2AddMulL(b.B0.Mul(c.B2).Add(b.B1.Mul(c.B1)), b.B2.Mul(c.B0), a.B2);
    E2AddMulL(b.B0.Mul(c.B2), b.B1.Mul(c.B1), a.B2);
    E2MulAssoc(a.B0, b.B0, c.B1);
    E2MulAssoc(a.B0, b.B1, c.B0);
    E2MulAssoc(a.B0, b.B2, c.B2);
    E2MulAssoc(a.B1, b.B0, c.B0);
    E2MulAssoc(a.B1, b.B1, c.B2);
    E2MulAssoc(a.B1, b.B2, c.B1);
    E2MulAssoc(a.B2, b.B0, c.B2);
    E2MulAssoc(a.B2, b.B1, c.B1);
    E2MulAssoc(a.B2, b.B2, c.B0);
  }

  lemma E6MulAssocB2(a: E6, b: E6, c: E6)
    ensures a.Mul(b).Mul(c).B2 == a.Mul(b.Mul(c)).B2
  {
    E2AddMulR(a.B0.Mul(b.B0), a.B1.Mul(b.B2).Add(a.B2.Mul(b.B1)).MulByNonResidue(), c.B2);
    E2NrMulR(a.B1.Mul(b.B2).Add(a.B2.Mul(b.B1)), c.B2);
    E2AddMulR(a.B1.Mul(b.B2), a.B2.Mul(b.B1), c.B2);
    E2AddMulR(a.B0.Mul(b.B1).Add(a.B1.Mul(b.B0)), a.B2.Mul(b.B2).MulByNonResidue(), c.B1);
    E2AddMulR(a.B0.Mul(b.B1), a.B1.Mul(b.B0), c.B1);
    E2NrMulR(a.B2.Mul(b.B2), c.B1);
    E2AddMulR(a.B0.Mul(b.B2).Add(a.B1.Mul(b.B1)), a.B2.Mul(b.B0), c.B0);
    E2AddMulR(a.B0.Mul(b.B2), a.B1.Mul(b.B1), c.B0);
    E2AddMulL(b.B0.Mul(c.B2).Add(b.B1.Mul(c.B1)), b.B2.Mul(c.B0), a.B0);
    E2AddMulL(b.B0.Mul(c.B2), b.B1.Mul(c.B1), a.B0);
    E2AddMulL(b.B0.Mul(c.B1).Add(b.B1.Mul(c.B0)), b.B2.Mul(c.B2).MulByNonResidue(), a.B1);
    E2AddMulL(b.B0.Mul(c.B1), b.B1.Mul(c.B0), a.B1);
    E2NrMulL(b.B2.Mul(c.B2), a.B1);
    E2AddMulL(b.B0.Mul(c.B0), b.B1.Mul(c.B2).Add(b.B2.Mul(c.B1)).MulByNonResidue(), a.B2);
    E2NrMulL(b.B1.Mul(c.B2).Add(b.B2.Mul(c.B1)), a.B2);
    E2AddMulL(b.B1.Mul(c.B2), b.B2.Mul(c.B1), a.B2);
    E2MulAssoc(a.B0, b.B0, c.B2);
    E2MulAssoc(a.B0, b.B1, c.B1);
    E2MulAssoc(a.B0, b.B2, c.B0);
    E2MulAssoc(a.B1, b.B0, c.B1);
    E2MulAssoc(a.B1, b.B1, c.B0);
    E2MulAssoc(a.B1, b.B2, c.B2);
    E2MulAssoc(a.B2, b.B0, c.B0);
    E2MulAssoc(a.B2, b.B1, c.B2);
    E2MulAssoc(a.B2, b.B2, c.B1);
  }

  lemma E6MulAssoc(a: E6, b: E6, c: E6)
    ensures a.Mul(b).Mul(c) == a.Mul(b.Mul(c))
  {
    E6MulAssocB0(a, b, c);
    E6MulAssocB1(a, b, c);
    E6MulAssocB2(a, b, c);
  }

  /** An element times its adjugate is its norm, placed in the first limb. */
  lemma E6MulAdjugate(a: E6)
    ensures a.Mul(a.Adjugate()) == E6(a.Norm(), Zero2, Zero2)
  {
    E6MulAdjugateB1(a);
    E6MulAdjugateB2(a);
  }

  lemma E6MulAdjugateB1(a: E6)
    ensures a.Mul(a.Adjugate()).B1 == Zero2
  {
    var a0, a1, a2 := a.B0, a.B1, a.B2;
    E2SubMulL(a2.Mul(a2).MulByNonResidue(), a0.Mul(a1), a0);
    E2NrMulL(a2.Mul(a2), a0);
    E2SubMulL(a0.Mul(a0), a1.Mul(a2).MulByNonResidue(), a1);
    E2NrMulL(a1.Mul(a2), a1);
    E2SubMulL(a1.Mul(a1), a0.Mul(a2), a2);
    E2MulAssoc(a0, a2, a2); E2MulComm(a0.Mul(a2), a2);
    E2MulAssoc(a0, a0, a1); E2MulComm(a0.Mul(a0), a1);
    E2MulAssoc(a1, a1, a2); E2MulComm(a1.Mul(a1), a2);
  }

  lemma E6MulAdjugateB2(a: E6)
    ensures a.Mul(a.Adjugate()).B2 == Zero2
  {
    var a0, a1, a2 := a.B0, a.B1, a.B2;
    E2SubMulL(a1.Mul(a1), a0.Mul(a2), a0);
    E2SubMulL(a2.Mul(a2).MulByNonResidue(), a0.Mul(a1), a1);
    E2NrMulL(a2.Mul(a2), a1);
    E2SubMulL(a0.Mul(a0), a1.Mul(a2).MulByNonResidue(), a2);
    E2NrMulL(a1.Mul(a2), a2);
    E2MulAssoc(a0, a1, a1); E2MulComm(a0.Mul(a1), a1);
    E2MulAssoc(a0, a0, a2); E2MulComm(a0.Mul(a0), a2);
    E2MulAssoc(a1, a2, a2); E2MulComm(a1.Mul(a2), a2);
  }

  /** Scaling by an E2 element is multiplication by that element in E6. */
  lemma E6MulByE2IsMul(x: E6, s: E2)
    ensures x.MulByE2(s) == x.Mul(E6(s, Zero2, Zero2))
  {
  }

  lemma E6MulByE2Assoc(a: E6, c: E6, s: E2)
    ensures a.Mul(c.MulByE2(s)) == a.Mul(c).MulByE2(s)
  {
    E6MulByE2IsMul(c, s);
    E6MulByE2IsMul(a.Mul(c), s);
    E6MulAssoc(a, c, E6(s, Zero2, Zero2));
  }

  lemma E6InverseCorrect(a: E6)
    requires Invertible6(a)
    ensures Congruent6(a.Mul(a.Inverse()), One6)
  {
    var n := a.Norm();
    E6MulByE2Assoc(a, a.Adjugate(), n.Inverse());
    E6MulAdjugate(a);
    E2InverseCorrect(n);
    CongruentRefl(0, P);
  }
}
