// The FFT domain of the scalar field of BN254: a multiplicative subgroup of
// power-of-two size with its twiddle tables, the power tables of the
// multiplicative generator that shifts the domain to a coset (and of its
// inverse), and the bit-reversed copies of those two tables.
module Bn254Fft {
  import opened Modular
  import opened PowersOfTwo
  import opened FftTables

  /** The order of Fr; its value belongs to the fr package, which is not
      part of this model, and no property below depends on it. */
  const R: Modulus

  /** A root of unity of order 2^MaxOrderRoot: the generator of the
      largest 2-adic subgroup of Fr. */
  const RootOfUnity: int :=
    19103219067921713944291392827692070036145651957329286315305642004821462161904
  const MaxOrderRoot: nat := 28

  /** The multiplicative generator NewDomain shifts by when no shift is
      given. */
  const DefaultShift: int := 5

  /** Generator(m): the generator of the subgroup whose size is the first
      power of two x >= m, i.e. RootOfUnity^(2^(MaxOrderRoot - log2 x)), or
      an error when x exceeds 2^MaxOrderRoot. Raised to x it gives
      RootOfUnity^(2^MaxOrderRoot), the identity when RootOfUnity has the
      order it is meant to have: the generator has order dividing x. */
  function Generator(m: nat): (r: Result<int>)
    ensures r.Err? <==> Log2Ceil(m) > MaxOrderRoot
    ensures r.Err? ==> r.failure == SizeTooBig
    ensures r.Ok? ==> r.value == Pow(RootOfUnity, Pow2(MaxOrderRoot - Log2Ceil(m)))
    ensures r.Ok? ==> Pow(r.value, NextPowerOfTwo(m)) == Pow(RootOfUnity, Pow2(MaxOrderRoot))
  {
    var x := NextPowerOfTwo(m);
    var logx := TrailingZeros(x);
    if logx > MaxOrderRoot then
      Err(SizeTooBig)
    else
      RootPowers(RootOfUnity, MaxOrderRoot, logx, 0);
      Ok(Pow(RootOfUnity, Pow2(MaxOrderRoot - logx)))
  }

  /** For sizes up to 2^MaxOrderRoot both generators exist, and the
      generator of the domain of size 2x, squared, is the generator of the
      domain of size x: the subgroups are nested. */
  lemma GeneratorSquare(logx: nat)
    requires logx + 1 <= MaxOrderRoot
    ensures Generator(Pow2(logx + 1)).Ok? && Generator(Pow2(logx)).Ok?
    ensures Pow(Generator(Pow2(logx + 1)).value, 2) == Generator(Pow2(logx)).value
  {
    Log2CeilPow2(logx);
    Log2CeilPow2(logx + 1);
    RootPowers(RootOfUnity, MaxOrderRoot, logx, 1);
    assert MaxOrderRoot - (logx + 1) == MaxOrderRoot - logx - 1;
    assert Pow2(1) == 2;
  }

  lemma {:induction false} Log2CeilPow2(k: nat)
    ensures Log2Ceil(Pow2(k)) == k
  {
    if k > 0 {
      Log2CeilPow2(k - 1);
      Pow2Positive(k - 1);
      assert (Pow2(k) + 1) / 2 == Pow2(k - 1);
    }
  }

  class Domain {
    var Cardinality: nat
    var CardinalityInv: int
    var Generator: int
    var GeneratorInv: int
    var FrMultiplicativeGen: int
    var FrMultiplicativeGenInv: int
    var Twiddles: seq<seq<int>>
    var TwiddlesInv: seq<seq<int>>
    var CosetTable: seq<int>
    var CosetTableReversed: seq<int>
    var CosetTableInv: seq<int>
    var CosetTableInvReversed: seq<int>

    /** &Domain{} followed by NewDomain's assignments of the scalar
        fields; every table starts empty. */
    constructor (cardinality: nat, cardinalityInv: int, generator: int, generatorInv: int,
                 frMultiplicativeGen: int, frMultiplicativeGenInv: int)
      ensures Cardinality == cardinality && CardinalityInv == cardinalityInv
      ensures Generator == generator && GeneratorInv == generatorInv
      ensures FrMultiplicativeGen == frMultiplicativeGen
      ensures FrMultiplicativeGenInv == frMultiplicativeGenInv
      ensures Twiddles == [] && TwiddlesInv == []
      ensures CosetTable == [] && CosetTableReversed == []
      ensures CosetTableInv == [] && CosetTableInvReversed == []
    {
      Cardinality, CardinalityInv := cardinality, cardinalityInv;
      Generator, GeneratorInv := generator, generatorInv;
      FrMultiplicativeGen, FrMultiplicativeGenInv := frMultiplicativeGen, frMultiplicativeGenInv;
      Twiddles, TwiddlesInv := [], [];
      CosetTable, CosetTableReversed, CosetTableInv, CosetTableInvReversed := [], [], [], [];
    }

    /** preComputeTwiddles: the twiddle tables of Generator and of
        GeneratorInv, one per FFT stage, and the tables of the first
        Cardinality powers of FrMultiplicativeGen and of
        FrMultiplicativeGenInv. Nothing else changes. */
    method PreComputeTwiddles(numCpu: nat)
      requires Cardinality >= 1
      modifies this`Twiddles, this`TwiddlesInv, this`CosetTable, this`CosetTableInv
      ensures IsTwiddleTables(Twiddles, Generator, TrailingZeros(Cardinality))
      ensures IsTwiddleTables(TwiddlesInv, GeneratorInv, TrailingZeros(Cardinality))
      ensures IsPowerTable(CosetTable, FrMultiplicativeGen, Cardinality)
      ensures IsPowerTable(CosetTableInv, FrMultiplicativeGenInv, Cardinality)
    {
      var nbStages := TrailingZeros(Cardinality);
      Twiddles := TwiddleTables(Generator, nbStages);
      TwiddlesInv := TwiddleTables(GeneratorInv, nbStages);
      CosetTable := ExpTable(FrMultiplicativeGen, Cardinality, numCpu);
      CosetTableInv := ExpTable(FrMultiplicativeGenInv, Cardinality, numCpu);
    }

    /** reverseCosetTables: fresh tables of Cardinality entries receive
        copies of the two coset tables, which are then bit-reversed in
        place. The coset tables themselves and every other field are
        unchanged. */
    method ReverseCosetTables()
      requires IsPowerOfTwo(Cardinality)
      modifies this`CosetTableReversed, this`CosetTableInvReversed
      ensures IsReversedCopy(CosetTableReversed, CosetTable, Cardinality)
      ensures IsReversedCopy(CosetTableInvReversed, CosetTableInv, Cardinality)
    {
      CosetTableReversed := ReversedCopy(CosetTable, Cardinality);
      CosetTableInvReversed := ReversedCopy(CosetTableInv, Cardinality);
    }
  }

  /** NewDomain(m, shift...): a domain of the first power-of-two size
      x >= m, or a panic (Generator's error) when x exceeds 2^28. The
      multiplicative generator is 5 unless a shift is given, in which case
      it is the first shift; each *Inv field is the field inverse of its
      partner, the tables are those of PreComputeTwiddles and the reversed
      coset tables are always built. numCpu stands for runtime.NumCPU(). */
  method NewDomain(m: nat, shift: seq<int>, numCpu: nat) returns (r: Result<Domain>)
    ensures r.Err? <==> Log2Ceil(m) > MaxOrderRoot
    ensures r.Err? ==> r.failure == SizeTooBig
    ensures r.Ok? ==> fresh(r.value)
    ensures r.Ok? ==> r.value.Cardinality == NextPowerOfTwo(m)
    ensures r.Ok? ==> r.value.Generator == Generator(m).value
    ensures r.Ok? ==> r.value.FrMultiplicativeGen == if |shift| == 0 then DefaultShift else shift[0]
    ensures r.Ok? ==> r.value.GeneratorInv == Inverse(r.value.Generator, R)
    ensures r.Ok? ==> r.value.FrMultiplicativeGenInv == Inverse(r.value.FrMultiplicativeGen, R)
    ensures r.Ok? ==> r.value.CardinalityInv == Inverse(r.value.Cardinality, R)
    ensures r.Ok? ==> IsTwiddleTables(r.value.Twiddles, r.value.Generator, Log2Ceil(m))
    ensures r.Ok? ==> IsTwiddleTables(r.value.TwiddlesInv, r.value.GeneratorInv, Log2Ceil(m))
    ensures r.Ok? ==> IsPowerTable(r.value.CosetTable, r.value.FrMultiplicativeGen, r.value.Cardinality)
    ensures r.Ok? ==>
      IsPowerTable(r.value.CosetTableInv, r.value.FrMultiplicativeGenInv, r.value.Cardinality)
    ensures r.Ok? ==>
      IsReversedCopy(r.value.CosetTableReversed, r.value.CosetTable, r.value.Cardinality)
    ensures r.Ok? ==>
      IsReversedCopy(r.value.CosetTableInvReversed, r.value.CosetTableInv, r.value.Cardinality)
  {
    var x := NextPowerOfTwo(m);
    var shiftGen := DefaultShift;
    if |shift| != 0 {
      shiftGen := shift[0];
    }
    var gen := Generator(m);
    if gen.Err? {
      return Err(gen.failure);
    }
    var d := new Domain(x, Inverse(x, R), gen.value, Inverse(gen.value, R),
                        shiftGen, Inverse(shiftGen, R));

    d.PreComputeTwiddles(numCpu);
    d.ReverseCosetTables();
    return Ok(d);
  }

  /** The reversed copies NewDomain stores are the bit reversals of the
      coset tables, and reversing them again gives the coset tables back. */
  lemma ReversedCosetTable(rev: seq<int>, ct: seq<int>, g: int, n: nat)
    requires IsPowerOfTwo(n) && IsPowerTable(ct, g, n)
    requires IsReversedCopy(rev, ct, n)
    ensures IsBitReversal(rev, ct) && IsBitReversal(ct, rev)
  {
    ReversedCopyOfFullTable(rev, ct);
    BitReversalInvolution(rev, ct);
  }

  /** Each entry of the power table of the inverse shift inverts the
      matching entry of the coset table: the two tables list the coset and
      its inverse. */
  lemma CosetTableInverse(ct: seq<int>, ctInv: seq<int>, g: int, gInv: int, n: nat)
    requires Congruent(g * gInv, 1, R)
    requires IsPowerTable(ct, g, n) && IsPowerTable(ctInv, gInv, n)
    ensures forall j :: 0 <= j < n ==> Congruent(ct[j] * ctInv[j], 1, R)
  {
    PowerTablesInverse(ct, ctInv, g, gInv, n, R);
  }
}
