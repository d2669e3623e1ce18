// BW6-761 line evaluations and the sparse multiplications that fold a line
// into the running Miller value, at the coordinate level.
//
// The Fp6 tower of BW6-761 is Fp2 = Fp[u] / (u^2 + 4) and
// Fp6 = Fp2[v] / (v^3 - u), so v^6 = -4. Field elements are integer
// representatives; ring identities are exact, and equalities that rely on
// the constant (-4)^-1 hold modulo every m for which FourInv is an inverse
// of -4 (the BW6-761 characteristic is one of them).
module Bw761Lines {
  import opened Modular

  /** (-4)^-1 in the BW6-761 base field, as hard-coded by the sparse
      multiplications. */
  const FourInv: int := 5168587788236799404547592261706743156859751684402112582135342620157217566682618802065762387467058765730648425815339960088371319340415685819512133774343976199213703824533881637779407723567697596963924775322476834632073684839301224

  /** m is a modulus for which FourInv * (-4) is 1. */
  predicate InvertsMinusFour(m: int)
  {
    m > 1 && Congruent(FourInv * -4, 1, m)
  }

  datatype E2 = E2(A0: int, A1: int)
  {
    function Add(y: E2): E2 { E2(A0 + y.A0, A1 + y.A1) }
    /** Product in Fp[u] / (u^2 + 4). */
    function Mul(y: E2): E2 { E2(A0 * y.A0 - 4 * (A1 * y.A1), A0 * y.A1 + A1 * y.A0) }
    function MulByElement(s: int): E2 { E2(A0 * s, A1 * s) }
    /** Multiplication by u. */
    function MulByNonResidue(): E2 { E2(-4 * A1, A0) }
  }

  const Zero2: E2 := E2(0, 0)

  predicate Congruent2(a: E2, b: E2, m: int)
    requires m > 0
  {
    Congruent(a.A0, b.A0, m) && Congruent(a.A1, b.A1, m)
  }

  lemma E2AddMulL(x: E2, y: E2, z: E2) ensures z.Mul(x.Add(y)) == z.Mul(x).Add(z.Mul(y)) {}

  /** An element of Fp6, as a value. */
  datatype E6 = E6(B0: E2, B1: E2, B2: E2)
  {
    function Add(y: E6): E6 { E6(B0.Add(y.B0), B1.Add(y.B1), B2.Add(y.B2)) }
    /** Schoolbook product in Fp2[v] / (v^3 - u). */
    function Mul(y: E6): E6 {
      E6(B0.Mul(y.B0).Add(B1.Mul(y.B2).Add(B2.Mul(y.B1)).MulByNonResidue()),
         B0.Mul(y.B1).Add(B1.Mul(y.B0)).Add(B2.Mul(y.B2).MulByNonResidue()),
         B0.Mul(y.B2).Add(B1.Mul(y.B1)).Add(B2.Mul(y.B0)))
    }
    function MulByE2(s: E2): E6 { E6(B0.Mul(s), B1.Mul(s), B2.Mul(s)) }
  }

  predicate Congruent6(a: E6, b: E6, m: int)
    requires m > 0
  {
    Congruent2(a.B0, b.B0, m) && Congruent2(a.B1, b.B1, m) && Congruent2(a.B2, b.B2, m)
  }

  lemma E6AddMulL(x: E6, y: E6, z: E6) ensures z.Mul(x.Add(y)) == z.Mul(x).Add(z.Mul(y)) {
    E2AddMulL(x.B0, y.B0, z.B0); E2AddMulL(x.B0, y.B0, z.B1); E2AddMulL(x.B0, y.B0, z.B2);
    E2AddMulL(x.B1, y.B1, z.B0); E2AddMulL(x.B1, y.B1, z.B1); E2AddMulL(x.B1, y.B1, z.B2);
    E2AddMulL(x.B2, y.B2, z.B0); E2AddMulL(x.B2, y.B2, z.B1); E2AddMulL(x.B2, y.B2, z.B2);
  }

  // ---------------------------------------------------------------------
  // The sparse factors y v^-3, y v^-2 and y v^-5.
  // v^-3 = u^-1 = (-4)^-1 u, v^-2 = (-4)^-1 u v, v^-5 = (-4)^-1 v.
  // ---------------------------------------------------------------------

  /** The E2 scalar y (-4)^-1 u shared by the three multiplications. */
  function ScaledU(y: int): E2 { E2(0, y * FourInv) }

  function VMinusThree(y: int): E6 { E6(ScaledU(y), Zero2, Zero2) }
  function VMinusTwo(y: int): E6 { E6(Zero2, ScaledU(y), Zero2) }
  function VMinusFive(y: int): E6 { E6(Zero2, E2(y * FourInv, 0), Zero2) }

  /** The powers v^3 = u, v^2 and v^5 = u v^2. */
  const V3: E6 := E6(E2(0, 1), Zero2, Zero2)
  const V2: E6 := E6(Zero2, Zero2, E2(1, 0))
  const V5: E6 := E6(Zero2, Zero2, E2(0, 1))

  /** y v^-k times v^k is y: the sparse factors are what their names say. */
  lemma SparseFactorsInvert(y: int, m: int)
    requires InvertsMinusFour(m)
    ensures Congruent6(VMinusThree(y).Mul(V3), E6(E2(y, 0), Zero2, Zero2), m)
    ensures Congruent6(VMinusTwo(y).Mul(V2), E6(E2(y, 0), Zero2, Zero2), m)
    ensures Congruent6(VMinusFive(y).Mul(V5), E6(E2(y, 0), Zero2, Zero2), m)
  {
    SparseProducts(y);
    MinusFourScaled(y, m);
  }

  lemma MinusFourScaled(y: int, m: int)
    requires InvertsMinusFour(m)
    ensures Congruent6(E6(E2(-4 * (y * FourInv), 0), Zero2, Zero2), E6(E2(y, 0), Zero2, Zero2), m)
  {
    MinusFourInverse(y, m);
    CongruentRefl(0, m);
  }

  lemma SparseProducts(y: int)
    ensures VMinusThree(y).Mul(V3) == E6(E2(-4 * (y * FourInv), 0), Zero2, Zero2)
    ensures VMinusTwo(y).Mul(V2) == E6(E2(-4 * (y * FourInv), 0), Zero2, Zero2)
    ensures VMinusFive(y).Mul(V5) == E6(E2(-4 * (y * FourInv), 0), Zero2, Zero2)
  {
    var w := y * FourInv;
    FirstLimbProduct(ScaledU(y), E2(0, 1));
    SecondThirdProduct(ScaledU(y), E2(1, 0));
    SecondThirdProduct(E2(w, 0), E2(0, 1));
    assert E2(0, w).Mul(E2(0, 1)) == E2(-4 * w, 0);
    assert E2(0, w).Mul(E2(1, 0)).MulByNonResidue() == E2(-4 * w, 0);
    assert E2(w, 0).Mul(E2(0, 1)).MulByNonResidue() == E2(-4 * w, 0);
  }

  lemma ZeroProducts(a: E2)
    ensures a.Mul(Zero2) == Zero2 && Zero2.Mul(a) == Zero2
    ensures a.Add(Zero2) == a && Zero2.Add(a) == a
    ensures Zero2.MulByNonResidue() == Zero2
  {
  }

  /** (a, 0, 0) (b, 0, 0) = (a b, 0, 0). */
  lemma FirstLimbProduct(a: E2, b: E2)
    ensures E6(a, Zero2, Zero2).Mul(E6(b, Zero2, Zero2)) == E6(a.Mul(b), Zero2, Zero2)
  {
    ZeroProducts(a);
    ZeroProducts(b);
    ZeroProducts(Zero2);
    ZeroProducts(a.Mul(b));
  }

  /** (a v) (b v^2) = a b u. */
  lemma SecondThirdProduct(a: E2, b: E2)
    ensures E6(Zero2, a, Zero2).Mul(E6(Zero2, Zero2, b)) == E6(a.Mul(b).MulByNonResidue(), Zero2, Zero2)
  {
    ZeroProducts(a);
    ZeroProducts(b);
    ZeroProducts(Zero2);
    ZeroProducts(a.Mul(b));
    ZeroProducts(a.Mul(b).MulByNonResidue());
  }

  /** -4 (y FourInv) is y. */
  lemma MinusFourInverse(y: int, m: int)
    requires InvertsMinusFour(m)
    ensures Congruent(-4 * (y * FourInv), y, m)
  {
    CongruentMul(FourInv * -4, 1, y, m);
    assert FourInv * -4 * y == -4 * (y * FourInv);
  }

  /** z = x * (y v^-3), computed as a product by the E2 scalar y (-4)^-1 u. */
  function MulByVMinusThreeValue(x: E6, y: int): E6
  {
    x.MulByE2(ScaledU(y))
  }

  /** z = x * (y v^-2): B0 = y x.B2, B1 = x.B0 (y (-4)^-1 u),
      B2 = x.B1 (y (-4)^-1 u). */
  function MulByVminusTwoValue(x: E6, y: int): E6
  {
    E6(x.B2.MulByElement(y), x.B0.Mul(ScaledU(y)), x.B1.Mul(ScaledU(y)))
  }

  /** z = x * (y v^-5): B0 = x.B2 (y (-4)^-1 u), B1 = x.B0 y (-4)^-1,
      B2 = x.B1 y (-4)^-1. */
  function MulByVminusFiveValue(x: E6, y: int): E6
  {
    E6(x.B2.Mul(ScaledU(y)), x.B0.MulByElement(y * FourInv), x.B1.MulByElement(y * FourInv))
  }

  /** The v^-3 multiplication is exactly the product by y v^-3. */
  lemma MulByVMinusThreeIsProduct(x: E6, y: int)
    ensures MulByVMinusThreeValue(x, y) == x.Mul(VMinusThree(y))
  {
  }

  /** The v^-2 multiplication agrees with the product by y v^-2 once
      (-4) (-4)^-1 = 1 is used on its first limb. */
  lemma MulByVminusTwoIsProduct(x: E6, y: int, m: int)
    requires InvertsMinusFour(m)
    ensures Congruent6(MulByVminusTwoValue(x, y), x.Mul(VMinusTwo(y)), m)
  {
    var p := x.Mul(VMinusTwo(y));
    assert p.B0 == E2(-4 * (x.B2.A0 * (y * FourInv)), -4 * (x.B2.A1 * (y * FourInv)));
    assert p.B1 == x.B0.Mul(ScaledU(y));
    assert p.B2 == x.B1.Mul(ScaledU(y));
    MinusFourInverse(y, m);
    CongruentMul(-4 * (y * FourInv), y, x.B2.A0, m);
    CongruentMul(-4 * (y * FourInv), y, x.B2.A1, m);
    assert -4 * (x.B2.A0 * (y * FourInv)) == -4 * (y * FourInv) * x.B2.A0;
    assert -4 * (x.B2.A1 * (y * FourInv)) == -4 * (y * FourInv) * x.B2.A1;
    CongruentSym(-4 * (y * FourInv) * x.B2.A0, y * x.B2.A0, m);
    CongruentSym(-4 * (y * FourInv) * x.B2.A1, y * x.B2.A1, m);
    CongruentRefl(p.B1.A0, m);
    CongruentRefl(p.B1.A1, m);
    CongruentRefl(p.B2.A0, m);
    CongruentRefl(p.B2.A1, m);
  }

  /** The v^-5 multiplication is exactly the product by y v^-5. */
  lemma MulByVminusFiveIsProduct(x: E6, y: int)
    ensures MulByVminusFiveValue(x, y) == x.Mul(VMinusFive(y))
  {
  }

  // ---------------------------------------------------------------------
  // Points and lines. G2 of BW6-761 is defined over Fp.
  // ---------------------------------------------------------------------

  datatype G1Affine = G1Affine(X: int, Y: int)
  datatype G2Affine = G2Affine(X: int, Y: int)
  /** Jacobian coordinates: the affine point (X / Z^2, Y / Z^3). */
  datatype G2Jac = G2Jac(X: int, Y: int, Z: int)
  /** Projective coordinates: the affine point (X / Z, Y / Z). */
  datatype G2Proj = G2Proj(X: int, Y: int, Z: int)

  /** Jacobian to projective: (X Z, Y, Z^3) names the same affine point. */
  function ProjFromJacobian(q: G2Jac): (r: G2Proj)
    ensures r.X * (q.Z * q.Z) == q.X * r.Z
    ensures r.Y * (q.Z * q.Z * q.Z) == q.Y * r.Z
  {
    G2Proj(q.X * q.Z, q.Y, q.Z * q.Z * q.Z)
  }

  /** Coefficients (a, b, c) of the projective line a X + b Y + c Z = 0
      through q and r: the cross product of their coordinate vectors. */
  function LineThrough(q: G2Proj, r: G2Proj): (int, int, int)
  {
    (q.Y * r.Z - q.Z * r.Y, q.Z * r.X - q.X * r.Z, q.X * r.Y - q.Y * r.X)
  }

  predicate OnLine(l: (int, int, int), q: G2Proj)
  {
    l.0 * q.X + l.1 * q.Y + l.2 * q.Z == 0
  }

  /** The line through q and r passes through q and through r. */
  lemma LineThroughVanishes(q: G2Proj, r: G2Proj)
    ensures OnLine(LineThrough(q, r), q)
    ensures OnLine(LineThrough(q, r), r)
  {
    var l := LineThrough(q, r);
    assert l.0 * q.X == q.Y * r.Z * q.X - q.Z * r.Y * q.X;
    assert l.1 * q.Y == q.Z * r.X * q.Y - q.X * r.Z * q.Y;
    assert l.2 * q.Z == q.X * r.Y * q.Z - q.Y * r.X * q.Z;
    assert l.0 * r.X == q.Y * r.Z * r.X - q.Z * r.Y * r.X;
    assert l.1 * r.Y == q.Z * r.X * r.Y - q.X * r.Z * r.Y;
    assert l.2 * r.Z == q.X * r.Y * r.Z - q.Y * r.X * r.Z;
  }

  /** The line coefficients as stored for the sparse multiplication:
      r1 = a P.X, r0 = b P.Y, r2 = c. */
  function Evaluate(l: (int, int, int), p: G1Affine): (int, int, int)
  {
    (l.1 * p.Y, l.0 * p.X, l.2)
  }

  /** A line evaluation: r0, r1, r2 are the coefficients of v^-2, v^-3 and
      v^-5 in the sparse factor it multiplies into a pairing result. */
  class LineEvalRes
  {
    var r0: int
    var r1: int
    var r2: int

    function Coefficients(): (int, int, int)
      reads this
    {
      (r0, r1, r2)
    }

    /** z = z * (r1 v^-3) + z * (r0 v^-2) + z * (r2 v^-5); the three
        products are formed before z is overwritten. */
    method MulAssign(z: PairingResult)
      modifies z
      ensures z.Value() == MulAssignValue(old(z.Value()), r0, r1, r2)
    {
      var a := new PairingResult;
      var b := new PairingResult;
      var c := new PairingResult;
      a.MulByVMinusThree(z, r1);
      b.MulByVminusTwo(z, r0);
      c.MulByVminusFive(z, r2);
      z.Add(a, b);
      z.Add(z, c);
    }
  }

  function MulAssignValue(x: E6, r0: int, r1: int, r2: int): E6
  {
    MulByVMinusThreeValue(x, r1).Add(MulByVminusTwoValue(x, r0)).Add(MulByVminusFiveValue(x, r2))
  }

  /** The sparse element r1 v^-3 + r0 v^-2 + r2 v^-5 of a line evaluation. */
  function LineElement(r0: int, r1: int, r2: int): E6
  {
    VMinusThree(r1).Add(VMinusTwo(r0)).Add(VMinusFive(r2))
  }

  /** Folding a line evaluation into z multiplies z by the line's sparse
      element. */
  lemma MulAssignIsProduct(x: E6, r0: int, r1: int, r2: int, m: int)
    requires InvertsMinusFour(m)
    ensures Congruent6(MulAssignValue(x, r0, r1, r2), x.Mul(LineElement(r0, r1, r2)), m)
  {
    var a := MulByVMinusThreeValue(x, r1);
    var b := MulByVminusTwoValue(x, r0);
    var c := MulByVminusFiveValue(x, r2);
    var b' := x.Mul(VMinusTwo(r0));
    MulByVMinusThreeIsProduct(x, r1);
    MulByVminusTwoIsProduct(x, r0, m);
    MulByVminusFiveIsProduct(x, r2);
    E6AddMulL(VMinusThree(r1), VMinusTwo(r0), x);
    E6AddMulL(VMinusThree(r1).Add(VMinusTwo(r0)), VMinusFive(r2), x);
    assert x.Mul(LineElement(r0, r1, r2)) == a.Add(b').Add(c);
    CongruentSum6(a, b, b', c, m);
  }

  /** a + b + c and a + b' + c agree when b and b' do. */
  lemma CongruentSum6(a: E6, b: E6, b': E6, c: E6, m: int)
    requires m > 0 && Congruent6(b, b', m)
    ensures Congruent6(a.Add(b).Add(c), a.Add(b').Add(c), m)
  {
    CongruentSumLimb(a.B0.A0, b.B0.A0, b'.B0.A0, c.B0.A0, m);
    CongruentSumLimb(a.B0.A1, b.B0.A1, b'.B0.A1, c.B0.A1, m);
    CongruentSumLimb(a.B1.A0, b.B1.A0, b'.B1.A0, c.B1.A0, m);
    CongruentSumLimb(a.B1.A1, b.B1.A1, b'.B1.A1, c.B1.A1, m);
    CongruentSumLimb(a.B2.A0, b.B2.A0, b'.B2.A0, c.B2.A0, m);
    CongruentSumLimb(a.B2.A1, b.B2.A1, b'.B2.A1, c.B2.A1, m);
  }

  lemma CongruentSumLimb(a: int, b: int, b': int, c: int, m: int)
    requires m > 0 && Congruent(b, b', m)
    ensures Congruent(a + b + c, a + b' + c, m)
  {
    assert (a + b + c) - (a + b' + c) == b - b';
  }

  /** The pairing result of BW6-761, an element of Fp6 updated in place. */
  class PairingResult
  {
    var B0: E2
    var B1: E2
    var B2: E2

    function Value(): E6
      reads this
    {
      E6(B0, B1, B2)
    }

    method Add(x: PairingResult, y: PairingResult)
      modifies this
      ensures Value() == old(x.Value()).Add(old(y.Value()))
    {
      var s := x.Value().Add(y.Value());
      B0, B1, B2 := s.B0, s.B1, s.B2;
    }

    /** z = x * (y v^-3). */
    method MulByVMinusThree(x: PairingResult, y: int)
      modifies this
      ensures Value() == MulByVMinusThreeValue(old(x.Value()), y)
    {
      var tmp := E2(0, y * FourInv);
      var s := x.Value().MulByE2(tmp);
      B0, B1, B2 := s.B0, s.B1, s.B2;
    }

    /** z = x * (y v^-2); x may be z itself. */
    method MulByVminusTwo(x: PairingResult, y: int)
      modifies this
      ensures Value() == MulByVminusTwoValue(old(x.Value()), y)
    {
      var tmp := E2(0, y * FourInv);
      var a := x.B2.MulByElement(y);
      B2 := x.B1.Mul(tmp);
      B1 := x.B0.Mul(tmp);
      B0 := a;
    }

    /** z = x * (y v^-5); x may be z itself. */
    method MulByVminusFive(x: PairingResult, y: int)
      modifies this
      ensures Value() == MulByVminusFiveValue(old(x.Value()), y)
    {
      var tmp := E2(0, y * FourInv);
      var a := x.B2.Mul(tmp);
      B2 := x.B1.MulByElement(tmp.A1);
      B1 := x.B0.MulByElement(tmp.A1);
      B0 := a;
    }
  }

  /** Evaluates at P the line through Q and R, both in Jacobian
      coordinates. */
  method LineEvalJac(q: G2Jac, r: G2Jac, p: G1Affine, result: LineEvalRes)
    modifies result
    ensures result.Coefficients() == Evaluate(LineThrough(ProjFromJacobian(q), ProjFromJacobian(r)), p)
  {
    var q' := ProjFromJacobian(q);
    var r' := ProjFromJacobian(r);
    result.r1 := q'.Y * r'.Z;
    result.r0 := q'.Z * r'.X;
    result.r2 := q'.X * r'.Y;
    var qz := q'.Z * r'.Y;
    var qx := q'.X * r'.Z;
    var qy := q'.Y * r'.X;
    result.r1 := result.r1 - qz;
    result.r0 := result.r0 - qx;
    result.r2 := result.r2 - qy;
    result.r1 := result.r1 * p.X;
    result.r0 := result.r0 * p.Y;
  }

  /** The same evaluation with R in affine coordinates (Z = 1). */
  method LineEvalAffine(q: G2Jac, r: G2Affine, p: G1Affine, result: LineEvalRes)
    modifies result
    ensures result.Coefficients() == Evaluate(LineThrough(ProjFromJacobian(q), G2Proj(r.X, r.Y, 1)), p)
  {
    var q' := ProjFromJacobian(q);
    result.r1 := q'.Y;
    result.r0 := q'.Z * r.X;
    result.r2 := q'.X * r.Y;
    var qz := q'.Z * r.Y;
    var qy := q'.Y * r.X;
    result.r1 := result.r1 - qz;
    result.r0 := result.r0 - q'.X;
    result.r2 := result.r2 - qy;
    result.r1 := result.r1 * p.X;
    result.r0 := result.r0 * p.Y;
  }

  /** An affine point is the Jacobian point with Z = 1, so the affine
      evaluation is the Jacobian one on that point. */
  lemma AffineIsJacobian(r: G2Affine)
    ensures ProjFromJacobian(G2Jac(r.X, r.Y, 1)) == G2Proj(r.X, r.Y, 1)
  {
  }
}
