// The degree-12 extension of BLS12-377, E12 = E6[w] / (w^2 - v).
// `Fp12` is the value of an element with the reference (schoolbook)
// arithmetic; `E12` is the mutable element whose methods write the receiver
// step by step, as the source does, and remain correct when the receiver is
// one of their arguments.
module Bls377E12 {
  import opened Modular
  import opened Bls377Tower

  /** The product (a + b*y)(c + d*y) in E2[y] / (y^2 - u). */
  function Fp4Mul(a: E2, b: E2, c: E2, d: E2): (E2, E2) {
    (a.Mul(c).Add(b.Mul(d).MulByNonResidue()), a.Mul(d).Add(b.Mul(c)))
  }

  datatype Fp12 = Fp12(C0: E6, C1: E6)
  {
    function Add(y: Fp12): Fp12 { Fp12(C0.Add(y.C0), C1.Add(y.C1)) }
    function Sub(y: Fp12): Fp12 { Fp12(C0.Sub(y.C0), C1.Sub(y.C1)) }
    function Double(): Fp12 { Fp12(C0.Double(), C1.Double()) }

    /** Reference product: (x0 + x1 w)(y0 + y1 w) with w^2 = v. */
    function Mul(y: Fp12): Fp12 {
      Fp12(C0.Mul(y.C0).Add(C1.Mul(y.C1).MulByNonResidue()),
           C0.Mul(y.C1).Add(C1.Mul(y.C0)))
    }

    function Conjugate(): Fp12 { Fp12(C0, C1.Neg()) }

    /** The norm into E6: x * Conjugate(x) = Norm(). */
    function Norm(): E6 { C0.Square().Sub(C1.Square().MulByNonResidue()) }

    /** Norm-based inverse with a single E6 inversion. */
    function Inverse(): Fp12 {
      var m := Norm().Inverse();
      Fp12(C0.Mul(m), C1.Mul(m).Neg())
    }

    /** Multiplication of every coefficient by an integer constant. */
    function Scale(k: int): Fp12 {
      Fp12(E6(C0.B0.MulByElement(k), C0.B1.MulByElement(k), C0.B2.MulByElement(k)),
           E6(C1.B0.MulByElement(k), C1.B1.MulByElement(k), C1.B2.MulByElement(k)))
    }

    /** The three Fp4 squares of the Granger-Scott squaring, placed in their
        slots with the non-residue scalings. */
    function SquaredBlocks(): Fp12 {
      var (cA, dA) := Fp4Mul(C0.B0, C1.B1, C0.B0, C1.B1);
      var tmp := C1.B0.MulByNonResidueInv();
      var (cB, dB) := Fp4Mul(C0.B2, tmp, C0.B2, tmp);
      var (cC, dC) := Fp4Mul(C0.B1, C1.B2, C0.B1, C1.B2);
      Fp12(E6(cA, cB.MulByNonResidue(), cC), E6(dC.MulByNonResidue(), dA, dB.MulByNonResidue()))
    }

    /** Granger-Scott squaring: 3*b - 2*Conjugate(x) for the blocks b. */
    function CyclotomicSquare(): Fp12 {
      SquaredBlocks().Scale(3).Sub(Conjugate().Scale(2))
    }

    /** The twelve base-field coefficients, C0.B0.A0 first. */
    function Coeffs(): seq<int> {
      [C0.B0.A0, C0.B0.A1, C0.B1.A0, C0.B1.A1, C0.B2.A0, C0.B2.A1,
       C1.B0.A0, C1.B0.A1, C1.B1.A0, C1.B1.A1, C1.B2.A0, C1.B2.A1]
    }
  }

  const Zero12: Fp12 := Fp12(Zero6, Zero6)
  const One12: Fp12 := Fp12(One6, Zero6)

  /** Field equality: every coefficient agrees modulo P. */
  predicate Congruent12(x: Fp12, y: Fp12) {
    Congruent6(x.C0, y.C0) && Congruent6(x.C1, y.C1)
  }

  predicate Invertible12(x: Fp12) {
    Invertible6(x.Norm())
  }

  /** Unitary elements: norm one. The cyclotomic subgroup lies among them. */
  predicate Unitary(x: Fp12) {
    Congruent6(x.Norm(), One6)
  }

  /** Squares an element a + b*y of Fp4 = E2[y] / (y^2 - u), writing the two
      halves of the result. */
  method Fp4Square(a: E2, b: E2) returns (c: E2, d: E2)
    ensures (c, d) == Fp4Mul(a, b, a, b)
  {
    c := a.Square();
    var tmp := b.Square();
    tmp := tmp.MulByNonResidue();
    c := c.Add(tmp);
    d := a.Mul(b).Double();
    E2MulComm(b, a);
  }

  class E12 {
    var C0: E6
    var C1: E6

    function Value(): Fp12
      reads this
    {
      Fp12(C0, C1)
    }

    /** Equality of field elements (coefficients compared modulo P). */
    method Equal(x: E12) returns (b: bool)
      ensures b <==> Congruent12(Value(), x.Value())
    {
      b := Congruent6(C0, x.C0) && Congruent6(C1, x.C1);
    }

    method Set(x: E12)
      modifies this
      ensures Value() == old(x.Value())
    {
      C0 := x.C0;
      C1 := x.C1;
    }

    method SetOne()
      modifies this
      ensures Value() == One12
    {
      C0 := E6(E2(1, 0), E2(0, 0), E2(0, 0));
      C1 := E6(E2(0, 0), E2(0, 0), E2(0, 0));
    }

    method Add(x: E12, y: E12)
      modifies this
      ensures Value() == old(x.Value()).Add(old(y.Value()))
    {
      C0 := x.C0.Add(y.C0);
      C1 := x.C1.Add(y.C1);
    }

    method Sub(x: E12, y: E12)
      modifies this
      ensures Value() == old(x.Value()).Sub(old(y.Value()))
    {
      C0 := x.C0.Sub(y.C0);
      C1 := x.C1.Sub(y.C1);
    }

    method Double(x: E12)
      modifies this
      ensures Value() == old(x.Value()).Double()
    {
      C0 := x.C0.Double();
      C1 := x.C1.Double();
    }

    /** Karatsuba product: three E6 multiplications, every read of x and y
        done before the receiver is written. */
    method Mul(x: E12, y: E12)
      modifies this
      ensures Value() == old(x.Value()).Mul(old(y.Value()))
    {
      ghost var xv, yv := x.Value(), y.Value();
      var t0 := x.C0.Mul(y.C0);
      var t1 := x.C1.Mul(y.C1);
      var xSum := x.C0.Add(x.C1);
      var ySum := y.C0.Add(y.C1);
      C0 := t1.MulByNonResidue();
      C0 := C0.Add(t0);
      C1 := xSum.Mul(ySum);
      C1 := C1.Sub(t0);
      C1 := C1.Sub(t1);
      KaratsubaMul(xv, yv);
    }

    /** Squaring as C0^2 + v*C1^2 and 2*C0*C1; C0 is written last. */
    method Square(x: E12)
      modifies this
      ensures Value() == old(x.Value()).Mul(old(x.Value()))
    {
      ghost var xv := x.Value();
      var b0 := x.C0.Square();
      var b1 := x.C1.Square();
      b1 := b1.MulByNonResidue();
      b1 := b0.Add(b1);
      C1 := x.C0.Mul(x.C1).Double();
      C0 := b1;
      SquareIsMulSelf(xv);
    }

    /** Granger-Scott squaring from three Fp4 squares. */
    method CyclotomicSquare(x: E12)
      modifies this
      ensures Value() == old(x.Value()).CyclotomicSquare()
    {
      ghost var xv := x.Value();
      var b := Zero12;
      var a := Zero12;
      var c, d;
      // A
      c, d := Fp4Square(x.C0.B0, x.C1.B1);
      b := b.(C0 := b.C0.(B0 := c), C1 := b.C1.(B1 := d));
      a := a.(C0 := a.C0.(B0 := x.C0.B0), C1 := a.C1.(B1 := x.C1.B1.Neg()));
      // B
      var tmp := x.C1.B0.MulByNonResidueInv();
      c, d := Fp4Square(x.C0.B2, tmp);
      b := b.(C0 := b.C0.(B1 := c.MulByNonResidue()), C1 := b.C1.(B2 := d.MulByNonResidue()));
      a := a.(C0 := a.C0.(B1 := x.C0.B1), C1 := a.C1.(B2 := x.C1.B2.Neg()));
      // C
      c, d := Fp4Square(x.C0.B1, x.C1.B2);
      b := b.(C0 := b.C0.(B2 := c), C1 := b.C1.(B0 := d.MulByNonResidue()));
      a := a.(C0 := a.C0.(B2 := x.C0.B2), C1 := a.C1.(B0 := x.C1.B0.Neg()));
      assert a == xv.Conjugate();
      assert b == xv.SquaredBlocks();
      var res := b;
      b := b.Sub(a).Double();
      C0 := res.C0.Add(b.C0);
      C1 := res.C1.Add(b.C1);
    }

    /** Inverse through the norm C0^2 - v*C1^2 and one E6 inversion. */
    method Inverse(x: E12)
      modifies this
      ensures Value() == old(x.Value()).Inverse()
      ensures Invertible12(old(x.Value())) ==> Congruent12(old(x.Value()).Mul(Value()), One12)
    {
      ghost var xv := x.Value();
      var t0 := x.C0.Square();
      var t1 := x.C1.Square();
      var buf := t1.MulByNonResidue();
      t0 := t0.Sub(buf);
      t1 := t0.Inverse();
      C0 := x.C0.Mul(t1);
      C1 := x.C1.Mul(t1).Neg();
      if Invertible12(xv) {
        Fp12InverseCorrect(xv);
      }
    }

    /** The inverse of a unitary element is its conjugate. */
    method InverseUnitary(x: E12)
      modifies this
      ensures Value() == old(x.Value()).Conjugate()
      ensures Unitary(old(x.Value())) ==> Congruent12(old(x.Value()).Mul(Value()), One12)
    {
      ghost var xv := x.Value();
      Conjugate(x);
      if Unitary(xv) {
        UnitaryInverse(xv);
      }
    }

    method Conjugate(x: E12)
      modifies this
      ensures Value() == old(x.Value()).Conjugate()
    {
      Set(x);
      C1 := C1.Neg();
    }
  }

  /** The Karatsuba middle term equals the schoolbook cross term. */
  lemma KaratsubaMul(x: Fp12, y: Fp12)
    ensures Fp12(x.C1.Mul(y.C1).MulByNonResidue().Add(x.C0.Mul(y.C0)),
                 x.C0.Add(x.C1).Mul(y.C0.Add(y.C1)).Sub(x.C0.Mul(y.C0)).Sub(x.C1.Mul(y.C1)))
            == x.Mul(y)
  {
    E6AddMulR(x.C0, x.C1, y.C0.Add(y.C1));
    E6AddMulL(y.C0, y.C1, x.C0);
    E6AddMulL(y.C0, y.C1, x.C1);
  }

  /** The source's squaring formula is the product of x with itself. */
  lemma SquareIsMulSelf(x: Fp12)
    ensures Fp12(x.C0.Square().Add(x.C1.Square().MulByNonResidue()), x.C0.Mul(x.C1).Double())
            == x.Mul(x)
  {
    E6MulComm(x.C1, x.C0);
  }

  /** SetOne puts one in C0.B0.A0 and zero in the other eleven coefficients. */
  lemma OneCoefficients()
    ensures One12.Coeffs() == [1, 0, 0, 0, 0, 0, 0, 0, 0, 0, 0, 0]
    ensures forall x: Fp12 :: One12.Mul(x) == x && x.Mul(One12) == x
  {
  }

  /** Add and Sub are inverse to each other and Double is x + x. */
  lemma AddSubRoundTrip(x: Fp12, y: Fp12)
    ensures x.Add(y).Sub(y) == x
    ensures x.Sub(y).Add(y) == x
    ensures x.Double() == x.Add(x)
  {
  }

  /** Conjugation is an involution. */
  lemma ConjugateInvolution(x: Fp12)
    ensures x.Conjugate().Conjugate() == x
  {
  }

  /** Conjugation is multiplicative. */
  lemma ConjugateMul(x: Fp12, y: Fp12)
    ensures x.Mul(y).Conjugate() == x.Conjugate().Mul(y.Conjugate())
  {
    E6NegMulR(x.C1, y.C1.Neg());
    E6NegMulL(y.C1, x.C1);
    E6NegMulL(y.C1, x.C0);
    E6NegMulR(x.C1, y.C0);
  }

  /** x times its conjugate is the norm. */
  lemma MulConjugate(x: Fp12)
    ensures x.Mul(x.Conjugate()) == Fp12(x.Norm(), Zero6)
  {
    E6NegMulL(x.C1, x.C1);
    E6NegMulL(x.C1, x.C0);
    E6MulComm(x.C1, x.C0);
  }

  /** For a unitary element the conjugate is an inverse. */
  lemma UnitaryInverse(x: Fp12)
    requires Unitary(x)
    ensures Congruent12(x.Mul(x.Conjugate()), One12)
  {
    MulConjugate(x);
    CongruentRefl(0, P);
  }

  /** The norm-based inverse is an inverse. */
  lemma Fp12InverseCorrect(x: Fp12)
    requires Invertible12(x)
    ensures Congruent12(x.Mul(x.Inverse()), One12)
  {
    var n := x.Norm();
    var m := n.Inverse();
    calc {
      x.Mul(x.Inverse()).C0;
      x.C0.Mul(x.C0.Mul(m)).Add(x.C1.Mul(x.C1.Mul(m).Neg()).MulByNonResidue());
      { E6MulAssoc(x.C0, x.C0, m); E6NegMulL(x.C1.Mul(m), x.C1); E6MulAssoc(x.C1, x.C1, m);
        E6NrMulR(x.C1.Mul(x.C1), m); E6NegMulR(x.C1.Mul(x.C1).MulByNonResidue(), m); }
      x.C0.Square().Mul(m).Add(x.C1.Square().MulByNonResidue().Neg().Mul(m));
      { E6AddMulR(x.C0.Square(), x.C1.Square().MulByNonResidue().Neg(), m); }
      x.C0.Square().Add(x.C1.Square().MulByNonResidue().Neg()).Mul(m);
      n.Mul(m);
    }
    calc {
      x.Mul(x.Inverse()).C1;
      x.C0.Mul(x.C1.Mul(m).Neg()).Add(x.C1.Mul(x.C0.Mul(m)));
      { E6NegMulL(x.C1.Mul(m), x.C0); E6MulAssoc(x.C0, x.C1, m); E6MulAssoc(x.C1, x.C0, m);
        E6MulComm(x.C0, x.C1); }
      Zero6;
    }
    E6InverseCorrect(n);
    CongruentRefl(0, P);
  }

  /** Cyclotomic squaring commutes with conjugation. */
  lemma CyclotomicSquareConjugate(x: Fp12)
    ensures x.Conjugate().CyclotomicSquare() == x.CyclotomicSquare().Conjugate()
  {
    SquaredBlocksConjugate(x);
    var b := x.SquaredBlocks();
    assert b.Conjugate().Scale(3) == b.Scale(3).Conjugate();
    assert x.Conjugate().Conjugate().Scale(2) == x.Conjugate().Scale(2).Conjugate();
  }

  lemma SquaredBlocksConjugate(x: Fp12)
    ensures x.Conjugate().SquaredBlocks() == x.SquaredBlocks().Conjugate()
  {
    Fp4MulNeg(x.C0.B0, x.C1.B1);
    Fp4MulNeg(x.C0.B2, x.C1.B0.MulByNonResidueInv());
    assert x.C1.B0.Neg().MulByNonResidueInv() == x.C1.B0.MulByNonResidueInv().Neg();
    Fp4MulNeg(x.C0.B1, x.C1.B2);
  }

  /** Negating the y-part of an Fp4 element negates the y-part of its square. */
  lemma Fp4MulNeg(a: E2, b: E2)
    ensures Fp4Mul(a, b.Neg(), a, b.Neg()).0 == Fp4Mul(a, b, a, b).0
    ensures Fp4Mul(a, b.Neg(), a, b.Neg()).1 == Fp4Mul(a, b, a, b).1.Neg()
  {
  }

  /** The element a of the base field Fp2, as an element of Fp12. */
  function FromE2(a: E2): Fp12 {
    Fp12(E6(a, Zero2, Zero2), Zero6)
  }

  /** One is a fixed point of cyclotomic squaring. */
  lemma CyclotomicSquareOne()
    ensures One12.CyclotomicSquare() == One12
  {
    E2MulUnits(One2);
    CyclotomicSquareBase(One2);
  }

  /** On an element a of Fp2 the cyclotomic square is 3a^2 - 2a: it agrees
      with the square exactly where a^2 = a, so the formula is not a
      squaring of all of Fp12. */
  lemma CyclotomicSquareBase(a: E2)
    ensures FromE2(a).CyclotomicSquare() == FromE2(a.Mul(a).MulByElement(3).Sub(a.MulByElement(2)))
    ensures a.Mul(a) == a ==> FromE2(a).CyclotomicSquare() == FromE2(a)
  {
    SquaredBlocksBase(a);
    ConjugateFixed(FromE2(a));
    ScaleSubBase(a.Mul(a), a);
    E2ThreeMinusTwo(a);
  }

  /** On an element a of Fp2 the three Fp4 squarings give a^2. */
  lemma SquaredBlocksBase(a: E2)
    ensures FromE2(a).SquaredBlocks() == FromE2(a.Mul(a))
  {
    var x := FromE2(a);
    assert x.C1.B0.MulByNonResidueInv() == Zero2;
    Fp4MulBase(a, a);
    Fp4MulZero(Zero2, Zero2);
    assert Zero2.MulByNonResidue() == Zero2;
    SquaredBlocksParts(x);
  }

  /** SquaredBlocks slot by slot, with the three Fp4 products named. */
  lemma SquaredBlocksParts(x: Fp12)
    ensures var tmp := x.C1.B0.MulByNonResidueInv();
            var A := Fp4Mul(x.C0.B0, x.C1.B1, x.C0.B0, x.C1.B1);
            var B := Fp4Mul(x.C0.B2, tmp, x.C0.B2, tmp);
            var C := Fp4Mul(x.C0.B1, x.C1.B2, x.C0.B1, x.C1.B2);
            x.SquaredBlocks() == Fp12(E6(A.0, B.0.MulByNonResidue(), C.0),
                                      E6(C.1.MulByNonResidue(), A.1, B.1.MulByNonResidue()))
  {
  }

  lemma ScaleSubBase(s: E2, a: E2)
    ensures FromE2(s).Scale(3).Sub(FromE2(a).Scale(2)) == FromE2(s.MulByElement(3).Sub(a.MulByElement(2)))
  {
  }

  lemma E2ThreeMinusTwo(a: E2)
    ensures a.MulByElement(3).Sub(a.MulByElement(2)) == a
  {
  }

  /** Elements of Fp2 multiply in Fp4 as they do in Fp2. */
  lemma Fp4MulBase(a: E2, c: E2)
    ensures Fp4Mul(a, Zero2, c, Zero2) == (a.Mul(c), Zero2)
  {
    E2MulUnits(a);
    E2MulUnits(c);
    E2MulUnits(Zero2);
  }

  /** Zero absorbs the Fp4 product. */
  lemma Fp4MulZero(c: E2, d: E2)
    ensures Fp4Mul(Zero2, Zero2, c, d) == (Zero2, Zero2)
  {
    E2MulUnits(c);
    E2MulUnits(d);
  }

  /** Conjugation fixes exactly the elements with no w-part. */
  lemma ConjugateFixed(x: Fp12)
    ensures x.Conjugate() == x <==> x.C1 == Zero6
  {
  }

  /** Each Fp4 block is a square of (a, b) in Fp4. */
  lemma Fp4SquareFormula(a: E2, b: E2)
    ensures Fp4Mul(a, b, a, b) == (a.Square().Add(b.Square().MulByNonResidue()), a.Mul(b).Double())
  {
    E2MulComm(b, a);
  }
}
