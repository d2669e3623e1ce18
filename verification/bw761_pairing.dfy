// BW6-761 pairing: the Miller loop, the final exponentiation and the
// exponentiation by the curve seed t, in an exponent model of the target
// group. Fp6* is cyclic; fixing a generator g of it, every element of
// Fp6* -- a Miller-loop value, an argument of the final exponentiation,
// its result -- is a power g^e and is represented by its exponent e:
// multiplication adds exponents, squaring doubles, inversion negates, and
// the p-power Frobenius multiplies by the characteristic p.
// The Fp6 arithmetic itself (external to the pairing code) is abstracted by
// these contracts; the coordinate-level line evaluations and sparse
// multiplications are modelled in the Bw761Lines module.
module Bw761Pairing {
  import opened PowersOfTwo

  /** |t|, the absolute value of the BW6-761 seed. */
  const T: nat := 9586122913090633729

  /** The characteristic of the BW6-761 base field. Its value is not
      needed by any proof here, so it is left unspecified. */
  const P: nat

  /** g^e, for the fixed generator g of Fp6*. */
  datatype PairingResult = PairingResult(e: int)
  {
    function Mul(y: PairingResult): PairingResult { PairingResult(e + y.e) }

    function Square(): PairingResult { PairingResult(2 * e) }

    /** On the cyclotomic subgroup (where the hard part runs) the
        cyclotomic square is the square. */
    function CyclotomicSquare(): PairingResult { PairingResult(2 * e) }

    function Inverse(): PairingResult { PairingResult(-e) }

    /** x^p */
    function Frobenius(): PairingResult { PairingResult(P * e) }

    /** x^(p^3) */
    function FrobeniusCube(): PairingResult { PairingResult(P * P * P * e) }

    /** z = x^t by an addition chain for the top bits of t followed by 46
        squarings and one multiplication. */
    method Expt() returns (z: PairingResult)
      ensures z == Pow(this, T)
    {
      var x := this;
      var result := x;
      result := result.Square();
      result := result.Square();
      result := result.Square();
      result := result.Square();
      result := result.Square();
      result := result.Mul(x);
      var x33 := result;
      assert x33 == Pow(x, 33);
      result := result.Square();
      result := result.Square();
      result := result.Square();
      result := result.Square();
      result := result.Square();
      result := result.Square();
      result := result.Square();
      result := result.Mul(x33);
      assert result == Pow(x, 4257);
      result := result.Square();
      result := result.Square();
      result := result.Square();
      result := result.Square();
      result := result.Mul(x);
      assert result == Pow(x, 68113);
      result := result.Square();
      result := result.Mul(x);
      assert result == Pow(x, 136227);
      ghost var k := 136227;
      for i := 0 to 46
        invariant k == 136227 * Pow2(i)
        invariant result == Pow(x, k)
      {
        result := result.Square();
        k := 2 * k;
      }
      Pow2Of46();
      result := result.Mul(x);
      z := result;
    }

    /** z = x^((p^3 - 1)(p + 1) * H): the easy part followed by the hard part
        of the final exponentiation. */
    method FinalExponentiation() returns (z: PairingResult)
      ensures z == Pow(this, EasyExponent() * HardExponent())
    {
      var x := this;
      var result := x;
      // easy part
      var buf := result.FrobeniusCube();
      result := result.Inverse();
      buf := buf.Mul(result);
      result := buf.Frobenius().Mul(buf);
      assert result == Pow(x, EasyExponent()) by { EasyPart(x); }
      ghost var y := result;
      // powers of the easy-part result
      var f: seq<PairingResult> := seq(8, _ => One());
      var fp: seq<PairingResult> := seq(10, _ => One());
      f := f[0 := result];
      for i := 1 to 8
        invariant |f| == 8
        invariant forall k :: 0 <= k < i ==> f[k] == Pow(y, TPow(k))
      {
        var e := f[i - 1].Expt();
        PowPow(y, TPow(i - 1), T);
        f := f[i := e];
      }
      for i := 0 to 8
        invariant |fp| == 10
        invariant forall k :: 0 <= k < i ==> fp[k] == Pow(y, TPow(k)).Frobenius()
      {
        fp := fp[i := f[i].Frobenius()];
      }
      var e8 := fp[7].Expt();
      assert e8 == Pow(y, TPow(8)).Frobenius() by {
        FrobeniusPow(Pow(y, TPow(7)), T);
        PowPow(y, TPow(7), T);
      }
      fp := fp[8 := e8];
      var e9 := fp[8].Expt();
      assert e9 == Pow(y, TPow(9)).Frobenius() by {
        FrobeniusPow(Pow(y, TPow(8)), T);
        PowPow(y, TPow(8), T);
      }
      fp := fp[9 := e9];
      result := HardPart(f, fp);
      assert result == Pow(y, HardExponent()) by { HardPartExponent(y, f, fp); }
      PowPow(x, EasyExponent(), HardExponent());
      z := result;
    }
  }

  function One(): PairingResult { PairingResult(0) }

  /** x^k */
  function Pow(x: PairingResult, k: int): PairingResult { PairingResult(k * x.e) }

  lemma Pow2Of46()
    ensures Pow2(46) == 70368744177664
  {
    assert Pow2(8) == 256;
    Pow2Add(8, 8);
    Pow2Add(16, 16);
    Pow2Add(32, 8);
    Pow2Add(40, 6);
  }

  /** t^k */
  function TPow(k: nat): int
  {
    if k == 0 then 1 else T * TPow(k - 1)
  }

  /** h[i] + h[i+1] t + h[i+2] t^2 + ...: the polynomial in t whose
      coefficients are h[i..]. */
  function TPoly(h: seq<int>, i: nat): int
    requires i <= |h|
    decreases |h| - i
  {
    if i == |h| then 0 else h[i] + T * TPoly(h, i + 1)
  }

  /** The easy-part exponent (p^3 - 1)(p + 1). */
  function EasyExponent(): int { (P * P * P - 1) * (P + 1) }

  /** Coefficients in t of the hard-part exponent, one table per power of
      p: H = h0(t) + p h1(t) + p^3 h3(t) + p^4 h4(t). */
  const H0: seq<int> := [36, 1, 0, 8, 64, 273, 72, 33]
  const H1: seq<int> := [261, 34, 80, 516, 0, 68, 512, 81, 0, 136]
  const H3: seq<int> := [256, 264, 73, 322, 261, 4, 2, 136]
  const H4: seq<int> := [32, 0, 261, 64, 65, 513, 20, 4, 276, 33]

  function HardExponent(): int
  {
    PPoly(P, TPoly(H0, 0), TPoly(H1, 0), TPoly(H3, 0), TPoly(H4, 0))
  }

  /** H as a number, for a value p of the characteristic: HardExponent() is
      HardExponentAt(P). */
  function HardExponentAt(p: int): int
  {
    PPoly(p, TPoly(H0, 0), TPoly(H1, 0), TPoly(H3, 0), TPoly(H4, 0))
  }

  /** a + p b + p^3 c + p^4 d */
  function PPoly(p: int, a: int, b: int, c: int, d: int): int
  {
    a + p * b + p * p * p * c + p * p * p * p * d
  }

  lemma PowPow(x: PairingResult, a: int, b: int)
    ensures Pow(Pow(x, a), b) == Pow(x, a * b)
  {
    assert b * (a * x.e) == (a * b) * x.e;
  }

  /** The easy part raises its input to (p^3 - 1)(p + 1). */
  lemma EasyPart(x: PairingResult)
    ensures var buf := x.FrobeniusCube().Mul(x.Inverse());
            buf.Frobenius().Mul(buf) == Pow(x, EasyExponent())
  {
    var b := P * P * P * x.e - x.e;
    assert b == (P * P * P - 1) * x.e;
    assert P * b + b == (P + 1) * b;
    assert (P + 1) * ((P * P * P - 1) * x.e) == EasyExponent() * x.e;
  }

  /** Both Frobenius maps are group endomorphisms. */
  lemma FrobeniusMul(a: PairingResult, b: PairingResult)
    ensures a.Mul(b).FrobeniusCube() == a.FrobeniusCube().Mul(b.FrobeniusCube())
    ensures a.Mul(b).Frobenius() == a.Frobenius().Mul(b.Frobenius())
  {
    assert P * P * P * (a.e + b.e) == P * P * P * a.e + P * P * P * b.e;
    assert P * (a.e + b.e) == P * a.e + P * b.e;
  }

  lemma FrobeniusPow(a: PairingResult, k: int)
    ensures Pow(a, k).FrobeniusCube() == Pow(a.FrobeniusCube(), k)
    ensures Pow(a, k).Frobenius() == Pow(a.Frobenius(), k)
  {
    assert P * P * P * (k * a.e) == k * (P * P * P * a.e);
    assert P * (k * a.e) == k * (P * a.e);
  }

  /** a * c^(p^3) */
  function MulCube(a: PairingResult, c: PairingResult): PairingResult
  {
    a.Mul(c.FrobeniusCube())
  }

  /** A value of the form a * c^(p^3) keeps that form when it is multiplied
      by a plain factor x or by some b^(p^3), and when it is squared. */
  lemma MulCubeMul(a: PairingResult, c: PairingResult, x: PairingResult)
    ensures MulCube(a, c).Mul(x) == MulCube(a.Mul(x), c)
  {
  }

  lemma MulCubeMulCube(a: PairingResult, c: PairingResult, b: PairingResult)
    ensures MulCube(a, c).Mul(b.FrobeniusCube()) == MulCube(a, c.Mul(b))
  {
    FrobeniusMul(c, b);
  }

  lemma MulCubeSquare(a: PairingResult, c: PairingResult)
    ensures MulCube(a, c).CyclotomicSquare() == MulCube(a.CyclotomicSquare(), c.CyclotomicSquare())
  {
    assert P * P * P * (2 * c.e) == 2 * (P * P * P * c.e);
  }

  /** The product computed by the hard-part schedule: a product of powers
      of its inputs f[j] = y^(t^j) and fp[j] = f[j]^p, times the
      p^3-Frobenius image of a second such product. */
  function Combination(f: seq<PairingResult>, fp: seq<PairingResult>): PairingResult
    requires |f| == 8 && |fp| == 10
  {
    MulCube(Group0(f).Mul(Group1(fp)), Group3(f).Mul(Group4(fp)))
  }

  function Group0(f: seq<PairingResult>): PairingResult
    requires |f| == 8
  {
    Pow(f[0], 36).Mul(Pow(f[1], 1).Mul(Pow(f[3], 8).Mul(Pow(f[4], 64).Mul(
    Pow(f[5], 273).Mul(Pow(f[6], 72).Mul(Pow(f[7], 33)))))))
  }

  function Group1(fp: seq<PairingResult>): PairingResult
    requires |fp| == 10
  {
    Pow(fp[0], 261).Mul(Pow(fp[1], 34).Mul(Pow(fp[2], 80).Mul(Pow(fp[3], 516).Mul(
    Pow(fp[5], 68).Mul(Pow(fp[6], 512).Mul(Pow(fp[7], 81).Mul(Pow(fp[9], 136))))))))
  }

  function Group3(f: seq<PairingResult>): PairingResult
    requires |f| == 8
  {
    Pow(f[0], 256).Mul(Pow(f[1], 264).Mul(Pow(f[2], 73).Mul(Pow(f[3], 322).Mul(
    Pow(f[4], 261).Mul(Pow(f[5], 4).Mul(Pow(f[6], 2).Mul(Pow(f[7], 136))))))))
  }

  function Group4(fp: seq<PairingResult>): PairingResult
    requires |fp| == 10
  {
    Pow(fp[0], 32).Mul(Pow(fp[2], 261).Mul(Pow(fp[3], 64).Mul(Pow(fp[4], 65).Mul(
    Pow(fp[5], 513).Mul(Pow(fp[6], 20).Mul(Pow(fp[7], 4).Mul(Pow(fp[8], 276).Mul(
    Pow(fp[9], 33)))))))))
  }

  /** The hard-part schedule: nine cyclotomic squarings interleaved with
      multiplications by the f[j], fp[j] and p^3-Frobenius images of their
      products. The ghost pair (a, c) keeps result == a * c^(p^3). */
  method HardPart(f: seq<PairingResult>, fp: seq<PairingResult>) returns (result: PairingResult)
    requires |f| == 8 && |fp| == 10
    ensures result == Combination(f, fp)
  {
    var buf: PairingResult;
    result := fp[5].FrobeniusCube().Mul(fp[3]).Mul(fp[6]);
    ghost var a, c := fp[3].Mul(fp[6]), fp[5];
    assert result == MulCube(a, c);
    MulCubeSquare(a, c);
    a, c := a.CyclotomicSquare(), c.CyclotomicSquare();
    result := result.CyclotomicSquare();
    assert result == MulCube(a, c);

    var f4fp2 := f[4].Mul(fp[2]);
    buf := f[0].Mul(f[1]).Mul(f[3]).Mul(f4fp2).Mul(fp[8]);
    MulCubeMulCube(a, c, buf);
    c := c.Mul(buf);
    buf := buf.FrobeniusCube();
    result := result.Mul(buf);
    assert result == MulCube(a, c);

    MulCubeMul(a, c, f[5]);
    MulCubeMul(a.Mul(f[5]), c, fp[0]);
    a := a.Mul(f[5]).Mul(fp[0]);
    MulCubeSquare(a, c);
    a, c := a.CyclotomicSquare(), c.CyclotomicSquare();
    result := result.Mul(f[5]).Mul(fp[0]).CyclotomicSquare();
    assert result == MulCube(a, c);

    MulCubeMulCube(a, c, f[7]);
    c := c.Mul(f[7]);
    buf := f[7].FrobeniusCube();
    result := result.Mul(buf);
    assert result == MulCube(a, c);

    MulCubeMul(a, c, fp[9]);
    a := a.Mul(fp[9]);
    MulCubeSquare(a, c);
    a, c := a.CyclotomicSquare(), c.CyclotomicSquare();
    result := result.Mul(fp[9]).CyclotomicSquare();
    assert result == MulCube(a, c);

    var f2fp4 := f[2].Mul(fp[4]);
    var f4fp2fp5 := f4fp2.Mul(fp[5]);
    buf := f2fp4.Mul(f[3]).Mul(fp[3]);
    MulCubeMulCube(a, c, buf);
    c := c.Mul(buf);
    buf := buf.FrobeniusCube();
    result := result.Mul(buf);
    assert result == MulCube(a, c);

    MulCubeMul(a, c, f4fp2fp5);
    MulCubeMul(a.Mul(f4fp2fp5), c, f[6]);
    MulCubeMul(a.Mul(f4fp2fp5).Mul(f[6]), c, fp[7]);
    a := a.Mul(f4fp2fp5).Mul(f[6]).Mul(fp[7]);
    MulCubeSquare(a, c);
    a, c := a.CyclotomicSquare(), c.CyclotomicSquare();
    result := result.Mul(f4fp2fp5).Mul(f[6]).Mul(fp[7]).CyclotomicSquare();
    assert result == MulCube(a, c);

    buf := fp[0].Mul(fp[9]);
    MulCubeMulCube(a, c, buf);
    c := c.Mul(buf);
    buf := buf.FrobeniusCube();
    result := result.Mul(buf);
    assert result == MulCube(a, c);

    MulCubeMul(a, c, f[0]);
    MulCubeMul(a.Mul(f[0]), c, f[7]);
    MulCubeMul(a.Mul(f[0]).Mul(f[7]), c, fp[1]);
    a := a.Mul(f[0]).Mul(f[7]).Mul(fp[1]);
    MulCubeSquare(a, c);
    a, c := a.CyclotomicSquare(), c.CyclotomicSquare();
    result := result.Mul(f[0]).Mul(f[7]).Mul(fp[1]).CyclotomicSquare();
    assert result == MulCube(a, c);

    var fp6fp8 := fp[6].Mul(fp[8]);
    var f5fp7 := f[5].Mul(fp[7]);
    MulCubeMulCube(a, c, fp6fp8);
    c := c.Mul(fp6fp8);
    buf := fp6fp8.FrobeniusCube();
    result := result.Mul(buf);
    assert result == MulCube(a, c);

    MulCubeMul(a, c, f5fp7);
    MulCubeMul(a.Mul(f5fp7), c, fp[2]);
    a := a.Mul(f5fp7).Mul(fp[2]);
    MulCubeSquare(a, c);
    a, c := a.CyclotomicSquare(), c.CyclotomicSquare();
    result := result.Mul(f5fp7).Mul(fp[2]).CyclotomicSquare();
    assert result == MulCube(a, c);

    var f3f6 := f[3].Mul(f[6]);
    var f1f7 := f[1].Mul(f[7]);
    buf := f1f7.Mul(f[2]);
    MulCubeMulCube(a, c, buf);
    c := c.Mul(buf);
    buf := buf.FrobeniusCube();
    result := result.Mul(buf);
    assert result == MulCube(a, c);

    MulCubeMul(a, c, f3f6);
    MulCubeMul(a.Mul(f3f6), c, fp[9]);
    a := a.Mul(f3f6).Mul(fp[9]);
    MulCubeSquare(a, c);
    a, c := a.CyclotomicSquare(), c.CyclotomicSquare();
    result := result.Mul(f3f6).Mul(fp[9]).CyclotomicSquare();
    assert result == MulCube(a, c);

    buf := f4fp2.Mul(f5fp7).Mul(fp6fp8);
    MulCubeMulCube(a, c, buf);
    c := c.Mul(buf);
    buf := buf.FrobeniusCube();
    result := result.Mul(buf);
    assert result == MulCube(a, c);

    MulCubeMul(a, c, f[0]);
    MulCubeMul(a.Mul(f[0]), c, fp[0]);
    MulCubeMul(a.Mul(f[0]).Mul(fp[0]), c, fp[3]);
    MulCubeMul(a.Mul(f[0]).Mul(fp[0]).Mul(fp[3]), c, fp[5]);
    a := a.Mul(f[0]).Mul(fp[0]).Mul(fp[3]).Mul(fp[5]);
    MulCubeSquare(a, c);
    a, c := a.CyclotomicSquare(), c.CyclotomicSquare();
    result := result.Mul(f[0]).Mul(fp[0]).Mul(fp[3]).Mul(fp[5]).CyclotomicSquare();
    assert result == MulCube(a, c);

    MulCubeMulCube(a, c, f3f6);
    c := c.Mul(f3f6);
    buf := f3f6.FrobeniusCube();
    result := result.Mul(buf);
    assert result == MulCube(a, c);

    MulCubeMul(a, c, fp[1]);
    a := a.Mul(fp[1]);
    MulCubeSquare(a, c);
    a, c := a.CyclotomicSquare(), c.CyclotomicSquare();
    result := result.Mul(fp[1]).CyclotomicSquare();
    assert result == MulCube(a, c);

    buf := f2fp4.Mul(f4fp2fp5).Mul(fp[9]);
    MulCubeMulCube(a, c, buf);
    c := c.Mul(buf);
    buf := buf.FrobeniusCube();
    result := result.Mul(buf);
    assert result == MulCube(a, c);

    MulCubeMul(a, c, f1f7);
    MulCubeMul(a.Mul(f1f7), c, f5fp7);
    MulCubeMul(a.Mul(f1f7).Mul(f5fp7), c, fp[0]);
    a := a.Mul(f1f7).Mul(f5fp7).Mul(fp[0]);
    result := result.Mul(f1f7).Mul(f5fp7).Mul(fp[0]);
    assert result == MulCube(a, c);
    assert a == PlainFactors(f, fp) && c == CubedFactors(f, fp);
    PlainFactorsValue(f, fp);
    CubedFactorsValue(f, fp);
  }

  /** The factors the hard-part schedule multiplies in directly, with the
      squarings that follow each of them. */
  ghost function PlainFactors(f: seq<PairingResult>, fp: seq<PairingResult>): PairingResult
    requires |f| == 8 && |fp| == 10
  {
    var f4fp2fp5 := f[4].Mul(fp[2]).Mul(fp[5]);
    var f5fp7 := f[5].Mul(fp[7]);
    var a1 := fp[3].Mul(fp[6]).CyclotomicSquare();
    var a2 := a1.Mul(f[5]).Mul(fp[0]).CyclotomicSquare();
    var a3 := a2.Mul(fp[9]).CyclotomicSquare();
    var a4 := a3.Mul(f4fp2fp5).Mul(f[6]).Mul(fp[7]).CyclotomicSquare();
    var a5 := a4.Mul(f[0]).Mul(f[7]).Mul(fp[1]).CyclotomicSquare();
    var a6 := a5.Mul(f5fp7).Mul(fp[2]).CyclotomicSquare();
    var a7 := a6.Mul(f[3].Mul(f[6])).Mul(fp[9]).CyclotomicSquare();
    var a8 := a7.Mul(f[0]).Mul(fp[0]).Mul(fp[3]).Mul(fp[5]).CyclotomicSquare();
    var a9 := a8.Mul(fp[1]).CyclotomicSquare();
    a9.Mul(f[1].Mul(f[7])).Mul(f5fp7).Mul(fp[0])
  }

  /** The factors the hard-part schedule multiplies in under the
      p^3-Frobenius, with the squarings that follow each of them. */
  ghost function CubedFactors(f: seq<PairingResult>, fp: seq<PairingResult>): PairingResult
    requires |f| == 8 && |fp| == 10
  {
    var f4fp2 := f[4].Mul(fp[2]);
    var f2fp4 := f[2].Mul(fp[4]);
    var fp6fp8 := fp[6].Mul(fp[8]);
    var f3f6 := f[3].Mul(f[6]);
    var c1 := fp[5].CyclotomicSquare();
    var c2 := c1.Mul(f[0].Mul(f[1]).Mul(f[3]).Mul(f4fp2).Mul(fp[8])).CyclotomicSquare();
    var c3 := c2.Mul(f[7]).CyclotomicSquare();
    var c4 := c3.Mul(f2fp4.Mul(f[3]).Mul(fp[3])).CyclotomicSquare();
    var c5 := c4.Mul(fp[0].Mul(fp[9])).CyclotomicSquare();
    var c6 := c5.Mul(fp6fp8).CyclotomicSquare();
    var c7 := c6.Mul(f[1].Mul(f[7]).Mul(f[2])).CyclotomicSquare();
    var c8 := c7.Mul(f4fp2.Mul(f[5].Mul(fp[7])).Mul(fp6fp8)).CyclotomicSquare();
    var c9 := c8.Mul(f3f6).CyclotomicSquare();
    c9.Mul(f2fp4.Mul(f4fp2.Mul(fp[5])).Mul(fp[9]))
  }

  /** The plain factors of the schedule amount to the first two groups of
      the combination, ... */
  lemma PlainFactorsValue(f: seq<PairingResult>, fp: seq<PairingResult>)
    requires |f| == 8 && |fp| == 10
    ensures PlainFactors(f, fp) == Group0(f).Mul(Group1(fp))
  {
  }

  /** ... and the p^3-Frobenius factors to the last two. */
  lemma CubedFactorsValue(f: seq<PairingResult>, fp: seq<PairingResult>)
    requires |f| == 8 && |fp| == 10
    ensures CubedFactors(f, fp) == Group3(f).Mul(Group4(fp))
  {
  }

  /** The first powers of t. */
  lemma TPowValues()
    ensures TPow(0) == 1
    ensures TPow(1) == 9586122913090633729
    ensures TPow(2) == 91893752504881257701523279626832445441
    ensures TPow(3) == 880904806456922042258150504921383618666682042621506879489
    ensures TPow(4) == 8444461749428370424248824938781546531467793087658945085636756735544241684481
    ensures TPow(5) == 80949648264912719433891748388922588534949055117684372945766215010925220339221272081494754459649
    ensures TPow(6) == 775993278038907282193857497614506039476964035042589158687789088622616306852038597336914337859819674328154368901121
    ensures TPow(7) == 7438766943013079967788694239809743792110418758849517325037204525023496860989145288317983824204814777919119813076016849626623228510209
    ensures TPow(8) == 71308934237558854325127709727847190969203971220645947580395698379813252032350174825762256833176177959280843723997398822036710793188242470196716356239361
    ensures TPow(9) == 683576208402736113253101620697783054246437231948540776834363937863314581408077561492104077897361736705474164947000945825297453703277609939833660493938108761499858704007169
  {
  }

  /** The coefficient table H0 evaluated at t. */
  lemma H0Value()
    ensures TPoly(H0, 0) == 245479309119431638992898425932522869479700812846599678974562052710981098215362672976983348460651847339220914864453075341092465682678247
  {
  }

  /** The coefficient table H1 evaluated at t. */
  lemma H1Value()
    ensures TPoly(H1, 0) == 92966364342772111402421820414898495378118003667385605127261688341191292847148251897253606654502919983303642063801228496597124251648713370446809412449883331865835834661930648
  {
  }

  /** The coefficient table H3 evaluated at t. */
  lemma H3Value()
    ensures TPoly(H3, 0) == 1011672304249778875620814403170202970291728464791823019163953314983437246447051728265662882739668878554114350659791423047766033823696166
  {
  }

  /** The coefficient table H4 evaluated at t. */
  lemma H4Value()
    ensures TPoly(H4, 0) == 22558014877290291757033619332593084583897431606959722662920980648907679839509618276615480546701409018929206231821430108726059228321755214708078953253854638781186196302202100
  {
  }

  /** The BW6-761 characteristic p and the order r of its pairing groups
      (the characteristic of BLS12-377). */
  const BaseModulus: nat := 6891450384315732539396789682275657542479668912536150109513790160209623422243491736087683183289411687640864567753786613451161759120554247759349511699125301598951605099378508850372543631423596795951899700429969112842764913119068299
  const GroupOrder: nat := 258664426012969094010652733694893533536393512754914660539884262666720468348340822774968888139573360124440321458177

  /** r divides p^2 - p + 1 for the BW6-761 characteristic p. */
  lemma GroupOrderDivides()
    ensures (BaseModulus * BaseModulus - BaseModulus + 1) % GroupOrder == 0
  {
  }

  /** With p the BW6-761 characteristic, H is 3(t^3 - t^2 + 1)·(p^2 - p + 1)/r
      modulo p^2 - p + 1, and not as an integer: on the cyclotomic subgroup,
      whose elements have orders dividing p^2 - p + 1, raising to H is
      raising to that multiple of (p^2 - p + 1)/r. */
  lemma HardExponentMultiple()
    ensures (HardExponentAt(BaseModulus) - 3 * (T * T * T - T * T + 1) * ((BaseModulus * BaseModulus - BaseModulus + 1) / GroupOrder))
            % (BaseModulus * BaseModulus - BaseModulus + 1) == 0
    ensures HardExponentAt(BaseModulus) != 3 * (T * T * T - T * T + 1) * ((BaseModulus * BaseModulus - BaseModulus + 1) / GroupOrder)
  {
    HardExponentValue();
    // Each quantity is paired with its value; the check on the values is
    // then arithmetic on numerals.
    DivisibleByValue(HardExponentAt(BaseModulus), HardExponentValueBw6761,
                     3 * (T * T * T - T * T + 1), 2642714419370766126498770257249507082895476288984023302147,
                     (BaseModulus * BaseModulus - BaseModulus + 1) / GroupOrder, 183605024979756075487719326850073451626157956051386062990720801230852059146340459483520220613366947904970976351693873006863359673702678177719551943937871697620281284804385805007599577038179699026372996870113127165486999278037615002412693350602749493942157922013724799205662261783058385552293197344854564781055241131887352001105831605228017830639,
                     BaseModulus * BaseModulus - BaseModulus + 1, 47492088399485457715834289805005581678773256638503857876768523431734835854976635343887623613544895101954603290568216380639184053202384606196903092573749304588391730310026852433962859985051656192552948550923584279332294985422937288788400034214407196030094122236121599777379060839851701912350294067838661684556453923593921783868340089687342701632573578828757409211102916620604206219148395599692874075979980025206850197335277590699491931382601466998320707685103);
  }

  /** h - k·q is divisible by m when the values of h, k, q and m say so. */
  lemma DivisibleByValue(h: int, hv: int, k: int, kv: int, q: int, qv: int, m: int, mv: int)
    requires h == hv && k == kv && q == qv && m == mv && mv != 0 && (hv - kv * qv) % mv == 0
    ensures (h - k * q) % m == 0
    ensures h != k * q <==> hv != kv * qv
  {
  }

  /** H for the BW6-761 characteristic, as a number. */
  const HardExponentValueBw6761: int := 50879567828669110176925327582641692358596058248553839341262265051860372408622505592433803375065158248941011532128621609261405622846284102872654789752347027742340329630885814218776260641087520050419385285332130086392958168761116892997790313175180420705108949357651432471410612210006710624498725707580705117495971597120232642575912577558218355761013240822447894831618652556475058377677714922037490877114638413570768744751144950383975306705064734897276658056375348884595294044240398576058626503674076070581745854565811005452425708245020634233376192209217536402521182749735111068838764414151235807070027940825124282009431548182580069927784796541335424721581843814344716027843575809140121720878037056727221500655437653656388009603732601884936017692126588759481267572058861065090235740881291353290439952649233887808991887266391340374520159083063602349642397348046838173570372112915252641749729766352974688809262434532221622655032651276362044818289539460408970656374143749721801129668021039318346409476808638642833718941439408366067102325688840943568428736236827823808785219079007135487887985333

  lemma HardExponentValue()
    ensures HardExponentAt(BaseModulus) == HardExponentValueBw6761
  {
    H0Value();
    H1Value();
    H3Value();
    H4Value();
  }

  /** Each group is z raised to its table's polynomial in t, when the
      group's inputs are the successive t-powers of z. */
  lemma Group0Value(z: PairingResult, f: seq<PairingResult>)
    requires |f| == 8 && forall k :: 0 <= k < 8 ==> f[k] == Pow(z, TPow(k))
    ensures Group0(f) == Pow(z, TPoly(H0, 0))
  {
    TPowValues();
    H0Value();
  }

  lemma Group1Value(z: PairingResult, fp: seq<PairingResult>)
    requires |fp| == 10 && forall k :: 0 <= k < 10 ==> fp[k] == Pow(z, TPow(k))
    ensures Group1(fp) == Pow(z, TPoly(H1, 0))
  {
    TPowValues();
    H1Value();
  }

  lemma Group3Value(z: PairingResult, f: seq<PairingResult>)
    requires |f| == 8 && forall k :: 0 <= k < 8 ==> f[k] == Pow(z, TPow(k))
    ensures Group3(f) == Pow(z, TPoly(H3, 0))
  {
    TPowValues();
    H3Value();
  }

  lemma Group4Value(z: PairingResult, fp: seq<PairingResult>)
    requires |fp| == 10 && forall k :: 0 <= k < 10 ==> fp[k] == Pow(z, TPow(k))
    ensures Group4(fp) == Pow(z, TPoly(H4, 0))
  {
    TPowValues();
    H4Value();
  }

  /** With f[j] = y^(t^j) and fp[j] = y^(p t^j), the hard-part schedule
      computes y^H. */
  lemma HardPartExponent(y: PairingResult, f: seq<PairingResult>, fp: seq<PairingResult>)
    requires |f| == 8 && |fp| == 10
    requires forall k :: 0 <= k < 8 ==> f[k] == Pow(y, TPow(k))
    requires forall k :: 0 <= k < 10 ==> fp[k] == Pow(y, TPow(k)).Frobenius()
    ensures Combination(f, fp) == Pow(y, HardExponent())
  {
    var yp := y.Frobenius();
    forall k | 0 <= k < 10
      ensures fp[k] == Pow(yp, TPow(k))
    {
      FrobeniusPow(y, TPow(k));
    }
    Group0Value(y, f);
    Group1Value(yp, fp);
    Group3Value(y, f);
    Group4Value(yp, fp);
    PolyInP(y, TPoly(H0, 0), TPoly(H1, 0), TPoly(H3, 0), TPoly(H4, 0));
  }

  /** y^a (y^p)^b (y^c (y^p)^d)^(p^3) = y^(a + p b + p^3 c + p^4 d). */
  lemma PolyInP(y: PairingResult, a: int, b: int, c: int, d: int)
    ensures MulCube(Pow(y, a).Mul(Pow(y.Frobenius(), b)), Pow(y, c).Mul(Pow(y.Frobenius(), d)))
         == Pow(y, PPoly(P, a, b, c, d))
  {
    assert b * (P * y.e) == (P * b) * y.e;
    assert P * P * P * (c * y.e + d * (P * y.e)) == (P * P * P * c) * y.e + (P * P * P * P * d) * y.e;
  }

  /** The product z * zs[0] * zs[1] * ... of the pairing results, left to
      right. */
  function Product(zs: seq<PairingResult>): PairingResult
  {
    if |zs| == 0 then One() else Product(zs[..|zs| - 1]).Mul(zs[|zs| - 1])
  }

  /** Exponent of a product: the sum of the factors' exponents. */
  function ExponentSum(zs: seq<PairingResult>): int
  {
    if |zs| == 0 then 0 else zs[0].e + ExponentSum(zs[1..])
  }

  lemma {:induction false} ProductExponent(zs: seq<PairingResult>)
    ensures Product(zs).e == ExponentSum(zs)
    decreases |zs|
  {
    if |zs| > 0 {
      var init := zs[..|zs| - 1];
      ProductExponent(init);
      ExponentSumAppend(init, zs[|zs| - 1]);
      assert init + [zs[|zs| - 1]] == zs;
    }
  }

  lemma {:induction false} ExponentSumAppend(zs: seq<PairingResult>, z: PairingResult)
    ensures ExponentSum(zs + [z]) == ExponentSum(zs) + z.e
    decreases |zs|
  {
    if |zs| > 0 {
      ExponentSumAppend(zs[1..], z);
      assert (zs + [z])[1..] == zs[1..] + [z];
    }
  }

  // ---------------------------------------------------------------------
  // Miller loop.
  //
  // Points of G2 are multiples kQ of the second pairing argument Q and are
  // represented by k. The value at P of the line through aQ and bQ is a
  // parameter `line(a, b)` of the loop: the line evaluations themselves are
  // the coordinate-level functions of Bw761Lines.
  // ---------------------------------------------------------------------

  /** The running point and the running Miller value of one loop. */
  datatype LoopState = LoopState(cur: int, acc: PairingResult)

  /** Number of iterations of a loop over a counter: indices |lc| - 2 down
      to 0 (the top digit only initialises the running point). */
  function Steps(lc: seq<int>): nat
  {
    if |lc| >= 1 then |lc| - 1 else 0
  }

  /** A digit other than 1 or -1 is treated as 0 by the loop. */
  function Digit(d: int): int
  {
    if d == 1 then 1 else if d == -1 then -1 else 0
  }

  /** Little-endian signed-digit value of a counter. */
  function SignedValue(ds: seq<int>): int
  {
    if |ds| == 0 then 0
    else SignedValue(ds[..|ds| - 1]) + Digit(ds[|ds| - 1]) * Pow2(|ds| - 1)
  }

  /** The scalar a loop over `lc` multiplies its starting point by: an
      implicit leading 1 followed by the digits below the top one. */
  function NafValue(lc: seq<int>): int
  {
    Pow2(Steps(lc)) + SignedValue(lc[..Steps(lc)])
  }

  /** One iteration on digit d: double the point and square the value,
      multiply by the tangent line; on d = +1 (resp. -1) add (resp.
      subtract) the base point, multiply by that chord and by `extra` (resp.
      `extraInv`). */
  function Step(d: int, s: LoopState, base: int, extra: PairingResult,
                extraInv: PairingResult, line: (int, int) -> PairingResult): LoopState
  {
    var next := 2 * s.cur;
    var acc := s.acc.Square().Mul(line(s.cur, -next));
    if d == 1 then LoopState(next + base, acc.Mul(line(next, base)).Mul(extra))
    else if d == -1 then LoopState(next - base, acc.Mul(line(next, -base)).Mul(extraInv))
    else LoopState(next, acc)
  }

  /** Iterations on lc[n-1], lc[n-2], ..., lc[0]. */
  function Run(lc: seq<int>, n: nat, s: LoopState, base: int, extra: PairingResult,
               extraInv: PairingResult, line: (int, int) -> PairingResult): LoopState
    requires n <= |lc|
    decreases n
  {
    if n == 0 then s
    else Run(lc, n - 1, Step(lc[n - 1], s, base, extra, extraInv, line), base, extra, extraInv, line)
  }

  /** Running n + 1 iterations is iteration n followed by the other n. */
  lemma RunStep(lc: seq<int>, n: nat, s: LoopState, base: int, extra: PairingResult,
                extraInv: PairingResult, line: (int, int) -> PairingResult)
    requires n < |lc|
    ensures Run(lc, n + 1, s, base, extra, extraInv, line)
         == Run(lc, n, Step(lc[n], s, base, extra, extraInv, line), base, extra, extraInv, line)
  {
  }

  /** The Miller function of a counter for the base point kQ: the loop
      started from (kQ, 1) with no extra multiplications. */
  function MillerFunction(lc: seq<int>, k: int, line: (int, int) -> PairingResult): PairingResult
  {
    Run(lc, Steps(lc), LoopState(k, One()), k, One(), One(), line).acc
  }

  /** The running point after n iterations is cur * 2^n plus the base
      times the signed value of the digits processed. */
  lemma {:induction false} RunPoint(lc: seq<int>, n: nat, s: LoopState, base: int, extra: PairingResult,
                                    extraInv: PairingResult, line: (int, int) -> PairingResult)
    requires n <= |lc|
    ensures Run(lc, n, s, base, extra, extraInv, line).cur
         == s.cur * Pow2(n) + base * SignedValue(lc[..n])
    decreases n
  {
    if n > 0 {
      var d := lc[n - 1];
      var s' := Step(d, s, base, extra, extraInv, line);
      assert s'.cur == 2 * s.cur + Digit(d) * base;
      RunPoint(lc, n - 1, s', base, extra, extraInv, line);
      SignedValueLast(lc, n);
      PointAlgebra(s.cur, Digit(d), base, Pow2(n - 1), SignedValue(lc[..n - 1]));
    }
  }

  lemma MulAddLeft(x: int, a: int, b: int)
    ensures x * a + x * b == (a + b) * x == x * (a + b)
  {
  }

  lemma PointAlgebra(c: int, d: int, b: int, q: int, sv: int)
    ensures (2 * c + d * b) * q + b * sv == c * (2 * q) + b * (sv + d * q)
  {
  }

  /** Running a loop from value a with extra multipliers r on +1 digits and
      r^-1 on -1 digits is the plain Miller function of the same points,
      times a^(2^n) and r^(signed value of the digits). */
  lemma {:induction false} RunSplit(lc: seq<int>, n: nat, c: int, a: PairingResult, base: int,
                                    r: PairingResult, line: (int, int) -> PairingResult)
    requires n <= |lc|
    ensures Run(lc, n, LoopState(c, a), base, r, r.Inverse(), line).acc.e
         == a.e * Pow2(n) + r.e * SignedValue(lc[..n])
            + Run(lc, n, LoopState(c, One()), base, One(), One(), line).acc.e
    decreases n
  {
    if n > 0 {
      var d := lc[n - 1];
      var sa := Step(d, LoopState(c, a), base, r, r.Inverse(), line);
      var sb := Step(d, LoopState(c, One()), base, One(), One(), line);
      StepSplit(d, c, a, base, r, line);
      RunSplit(lc, n - 1, sa.cur, sa.acc, base, r, line);
      RunSplit(lc, n - 1, sb.cur, sb.acc, base, One(), line);
      SignedValueLast(lc, n);
      var q := Pow2(n - 1);
      var sv := SignedValue(lc[..n - 1]);
      var rest := Run(lc, n - 1, LoopState(sa.cur, One()), base, One(), One(), line).acc.e;
      SplitAlgebra(a.e, Digit(d), r.e, sb.acc.e, q, sv, rest);
    }
  }

  /** One iteration from value a with multipliers r, r^-1 reaches the same
      point as from value 1 with no multipliers, and its value differs by
      a^2 r^digit. */
  lemma StepSplit(d: int, c: int, a: PairingResult, base: int, r: PairingResult,
                  line: (int, int) -> PairingResult)
    ensures Step(d, LoopState(c, a), base, r, r.Inverse(), line).cur
         == Step(d, LoopState(c, One()), base, One(), One(), line).cur
    ensures Step(d, LoopState(c, a), base, r, r.Inverse(), line).acc.e
         == 2 * a.e + Digit(d) * r.e + Step(d, LoopState(c, One()), base, One(), One(), line).acc.e
  {
  }

  lemma SignedValueLast(lc: seq<int>, n: nat)
    requires 0 < n <= |lc|
    ensures SignedValue(lc[..n]) == SignedValue(lc[..n - 1]) + Digit(lc[n - 1]) * Pow2(n - 1)
  {
    assert lc[..n][..n - 1] == lc[..n - 1];
  }

  lemma SplitAlgebra(a: int, d: int, r: int, b: int, q: int, sv: int, rest: int)
    ensures (2 * a + d * r + b) * q + r * sv + rest == a * (2 * q) + r * (sv + d * q) + (b * q + rest)
  {
  }

  /** A BW6-761 curve: the two signed-digit loop counters of the optimal
      ate pairing. */
  datatype Curve = Curve(loopCounter1: seq<int>, loopCounter2: seq<int>)
  {
    /** The final exponentiation of the product of all arguments: the
        exponent of the result is the sum of the arguments' exponents times
        (p^3 - 1)(p + 1)·H. */
    method FinalExponentiation(z: PairingResult, zs: seq<PairingResult>) returns (r: PairingResult)
      ensures r == Pow(z.Mul(Product(zs)), EasyExponent() * HardExponent())
      ensures r == Pow(PairingResult(z.e + ExponentSum(zs)), EasyExponent() * HardExponent())
    {
      var result := z;
      for i := 0 to |zs|
        invariant result == z.Mul(Product(zs[..i]))
      {
        assert zs[..i + 1][..i] == zs[..i];
        result := result.Mul(zs[i]);
      }
      assert zs[..|zs|] == zs;
      r := result.FinalExponentiation();
      ProductExponent(zs);
      assert z.Mul(Product(zs)) == PairingResult(z.e + ExponentSum(zs));
    }

    /** State after the first loop (counter 1, base Q). */
    function Pass1(line: (int, int) -> PairingResult): LoopState
    {
      Run(loopCounter1, Steps(loopCounter1), LoopState(1, One()), 1, One(), One(), line)
    }

    /** State after the second loop: it continues from the first one's
        point and value, with base point Q1 = (first point) and extra
        multiplications by the first value and its inverse. */
    function Pass2(line: (int, int) -> PairingResult): LoopState
    {
      var s1 := Pass1(line);
      Run(loopCounter2, Steps(loopCounter2), s1, s1.cur, s1.acc, s1.acc.Inverse(), line)
    }

    /** The Miller loop's output for P and Q not at infinity. */
    function MillerValue(line: (int, int) -> PairingResult): PairingResult
    {
      var s1 := Pass1(line);
      Pass2(line).acc.Frobenius().Mul(s1.acc.Mul(line(s1.cur, 1)))
    }

    method MillerLoop(pIsInfinity: bool, qIsInfinity: bool, line: (int, int) -> PairingResult)
      returns (result: PairingResult)
      ensures pIsInfinity || qIsInfinity ==> result == One()
      ensures !pIsInfinity && !qIsInfinity ==> result == MillerValue(line)
    {
      result := One();
      if pIsInfinity || qIsInfinity {
        return;
      }
      var q, qNeg := 1, -1;
      var qCur := q;
      for i := Steps(loopCounter1) downto 0
        invariant Run(loopCounter1, i, LoopState(qCur, result), q, One(), One(), line) == Pass1(line)
      {
        ghost var s := LoopState(qCur, result);
        RunStep(loopCounter1, i, s, q, One(), One(), line);
        var qNext := 2 * qCur;
        var qNextNeg := -qNext;
        result := result.Square();
        result := result.Mul(line(qCur, qNextNeg));
        if loopCounter1[i] == 1 {
          result := result.Mul(line(qNext, q));
          qNext := qNext + q;
        } else if loopCounter1[i] == -1 {
          result := result.Mul(line(qNext, qNeg));
          qNext := qNext + qNeg;
        }
        qCur := qNext;
        assert LoopState(qCur, result) == Step(loopCounter1[i], s, q, One(), One(), line);
      }
      assert LoopState(qCur, result) == Pass1(line);
      var result1 := result;
      var result1Inv := result1.Inverse();
      var result1LineEval := result1.Mul(line(qCur, q));
      var q1 := qCur;
      var qEnd;
      qEnd, result := SecondPass(q1, result1, result1Inv, line);
      result := result.Frobenius();
      result := result.Mul(result1LineEval);
    }

    /** The second loop of MillerLoop: runs counter 2 from the first
        loop's point Q1 and value, multiplying by that value (or its
        inverse) on every nonzero digit. */
    method SecondPass(q1: int, result1: PairingResult, result1Inv: PairingResult,
                      line: (int, int) -> PairingResult)
      returns (qCur: int, result: PairingResult)
      ensures LoopState(qCur, result)
           == Run(loopCounter2, Steps(loopCounter2), LoopState(q1, result1), q1, result1, result1Inv, line)
    {
      qCur, result := q1, result1;
      ghost var final := Run(loopCounter2, Steps(loopCounter2), LoopState(q1, result1), q1, result1, result1Inv, line);
      // -q1 stands for the negated point Q1Neg
      for i := Steps(loopCounter2) downto 0
        invariant Run(loopCounter2, i, LoopState(qCur, result), q1, result1, result1Inv, line) == final
      {
        ghost var s := LoopState(qCur, result);
        RunStep(loopCounter2, i, s, q1, result1, result1Inv, line);
        var qNext := 2 * qCur;
        var qNextNeg := -qNext;
        result := result.Square();
        result := result.Mul(line(qCur, qNextNeg));
        if loopCounter2[i] == 1 {
          result := result.Mul(line(qNext, q1));
          result := result.Mul(result1);
          qNext := qNext + q1;
        } else if loopCounter2[i] == -1 {
          result := result.Mul(line(qNext, -q1));
          result := result.Mul(result1Inv);
          qNext := qNext - q1;
        }
        qCur := qNext;
        assert LoopState(qCur, result) == Step(loopCounter2[i], s, q1, result1, result1Inv, line);
      }
    }

    /** The first loop ends at NafValue(counter 1) * Q, the second at
        NafValue(counter 1) * NafValue(counter 2) * Q. */
    lemma MillerLoopPoints(line: (int, int) -> PairingResult)
      ensures Pass1(line).cur == NafValue(loopCounter1)
      ensures Pass2(line).cur == NafValue(loopCounter1) * NafValue(loopCounter2)
    {
      RunPoint(loopCounter1, Steps(loopCounter1), LoopState(1, One()), 1, One(), One(), line);
      var s1 := Pass1(line);
      RunPoint(loopCounter2, Steps(loopCounter2), s1, s1.cur, s1.acc, s1.acc.Inverse(), line);
      var n := Steps(loopCounter2);
      MulAddLeft(s1.cur, Pow2(n), SignedValue(loopCounter2[..n]));
    }

    /** The Miller loop output is f1^(p * v2) * g^p * f1 * l, where f1 is
        the Miller function of counter 1 for Q, v2 the value of counter 2,
        g the Miller function of counter 2 for the point v1 Q reached by
        the first loop, and l the line through v1 Q and Q. */
    lemma MillerLoopDecomposition(line: (int, int) -> PairingResult)
      ensures
        var v1 := NafValue(loopCounter1);
        var f1 := MillerFunction(loopCounter1, 1, line);
        MillerValue(line)
        == Pow(f1, NafValue(loopCounter2)).Mul(MillerFunction(loopCounter2, v1, line))
           .Frobenius().Mul(f1.Mul(line(v1, 1)))
    {
      MillerLoopPoints(line);
      var s1 := Pass1(line);
      var n := Steps(loopCounter2);
      RunSplit(loopCounter2, n, s1.cur, s1.acc, s1.cur, s1.acc, line);
      MulAddLeft(s1.acc.e, Pow2(n), SignedValue(loopCounter2[..n]));
    }
  }
}
