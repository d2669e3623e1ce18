// The FFT domain of the scalar field of BW6-633: a multiplicative subgroup
// of power-of-two size, optionally refined by 2^depth for FFTs on cosets,
// with its twiddle tables, its coset power tables and (on request) their
// bit-reversed copies.
module Bw6633Fft {
  import opened Modular
  import opened PowersOfTwo
  import opened FftTables

  /** The order of Fr; its value belongs to the fr package, which is not
      part of this model, and no property below depends on it. */
  const R: Modulus

  /** A root of unity of order 2^MaxOrderRoot: the generator of the
      largest 2-adic subgroup of Fr. */
  const RootOfUnity: int :=
    4991787701895089137426454739366935169846548798279261157172811661565882460884369603588700158257
  const MaxOrderRoot: nat := 20

  /** nbCosets in preComputeTwiddles and reverseCosetTables: the number of
      cosets of the domain in the finer domain, other than the domain
      itself. */
  function NbCosets(depth: nat): nat
  {
    Pow2Positive(depth);
    Pow2(depth) - 1
  }

  /** A family of coset tables: nbCosets tables of n entries, table i
      listing the powers of g^(i+1). */
  predicate IsCosetTables(ct: seq<seq<int>>, g: int, nbCosets: nat, n: nat)
  {
    |ct| == nbCosets &&
    forall i :: 0 <= i < nbCosets ==> IsPowerTable(ct[i], Pow(g, i + 1), n)
  }

  /** The bit-reversed copies of a family of tables, each copied into a
      fresh table of n entries. */
  predicate IsReversedTables(rev: seq<seq<int>>, ct: seq<seq<int>>, nbCosets: nat, n: nat)
    requires IsPowerOfTwo(n) && |ct| >= nbCosets
  {
    |rev| == nbCosets &&
    forall i :: 0 <= i < nbCosets ==> IsReversedCopy(rev[i], ct[i], n)
  }

  /** The coset part of preComputeTwiddles: the generators g^1 .. g^nbCosets
      of the cosets (and those of the inverse gInv), built by successive
      multiplications, and for each of them the table of its first n
      powers. */
  method CosetTables(g: int, gInv: int, nbCosets: nat, n: nat, numCpu: nat)
    returns (cosetTable: seq<seq<int>>, cosetTableInv: seq<seq<int>>)
    requires n >= 1
    ensures IsCosetTables(cosetTable, g, nbCosets, n)
    ensures IsCosetTables(cosetTableInv, gInv, nbCosets, n)
  {
    cosetTable, cosetTableInv := [], [];
    if nbCosets > 0 {
      var cosetGens := new int[nbCosets](_ => 0);
      var cosetGensInv := new int[nbCosets](_ => 0);
      cosetGens[0] := g;
      cosetGensInv[0] := gInv;
      assert Pow(g, 1) == g;
      assert Pow(gInv, 1) == gInv;
      for i := 1 to nbCosets
        invariant forall k :: 0 <= k < i ==> cosetGens[k] == Pow(g, k + 1)
        invariant forall k :: 0 <= k < i ==> cosetGensInv[k] == Pow(gInv, k + 1)
      {
        cosetGens[i] := cosetGens[i - 1] * g;
        cosetGensInv[i] := cosetGensInv[i - 1] * gInv;
      }
      var gens, gensInv := cosetGens[..], cosetGensInv[..];
      for i := 0 to nbCosets
        invariant IsCosetTables(cosetTable, g, i, n)
        invariant IsCosetTables(cosetTableInv, gInv, i, n)
      {
        var t := ExpTable(gens[i], n, numCpu);
        var tInv := ExpTable(gensInv[i], n, numCpu);
        cosetTable := cosetTable + [t];
        cosetTableInv := cosetTableInv + [tInv];
      }
    }
  }

  class Domain {
    var Cardinality: nat
    var CardinalityInv: int
    var Depth: nat
    var PrecomputeReversedTable: nat
    var Generator: int
    var GeneratorInv: int
    var FinerGenerator: int
    var FinerGeneratorInv: int
    var Twiddles: seq<seq<int>>
    var TwiddlesInv: seq<seq<int>>
    var CosetTable: seq<seq<int>>
    var CosetTableReversed: seq<seq<int>>
    var CosetTableInv: seq<seq<int>>
    var CosetTableInvReversed: seq<seq<int>>

    /** &Domain{} followed by NewDomain's assignments of the scalar
        fields; every table starts empty. */
    constructor (cardinality: nat, cardinalityInv: int, depth: nat, precomputeReversedTable: nat,
                 generator: int, generatorInv: int, finerGenerator: int, finerGeneratorInv: int)
      ensures Cardinality == cardinality && CardinalityInv == cardinalityInv
      ensures Depth == depth && PrecomputeReversedTable == precomputeReversedTable
      ensures Generator == generator && GeneratorInv == generatorInv
      ensures FinerGenerator == finerGenerator && FinerGeneratorInv == finerGeneratorInv
      ensures Twiddles == [] && TwiddlesInv == []
      ensures CosetTable == [] && CosetTableReversed == []
      ensures CosetTableInv == [] && CosetTableInvReversed == []
    {
      Cardinality, CardinalityInv := cardinality, cardinalityInv;
      Depth, PrecomputeReversedTable := depth, precomputeReversedTable;
      Generator, GeneratorInv := generator, generatorInv;
      FinerGenerator, FinerGeneratorInv := finerGenerator, finerGeneratorInv;
      Twiddles, TwiddlesInv := [], [];
      CosetTable, CosetTableReversed, CosetTableInv, CosetTableInvReversed := [], [], [], [];
    }

    /** preComputeTwiddles: the twiddle tables of Generator and of
        GeneratorInv, one per FFT stage, and 2^Depth - 1 coset tables of
        Cardinality entries for FinerGenerator^1, FinerGenerator^2, ...
        (and likewise for FinerGeneratorInv). Nothing else changes. */
    method PreComputeTwiddles(numCpu: nat)
      requires Cardinality >= 1
      modifies this`Twiddles, this`TwiddlesInv, this`CosetTable, this`CosetTableInv
      ensures IsTwiddleTables(Twiddles, Generator, TrailingZeros(Cardinality))
      ensures IsTwiddleTables(TwiddlesInv, GeneratorInv, TrailingZeros(Cardinality))
      ensures IsCosetTables(CosetTable, FinerGenerator, NbCosets(Depth), Cardinality)
      ensures IsCosetTables(CosetTableInv, FinerGeneratorInv, NbCosets(Depth), Cardinality)
    {
      var nbStages := TrailingZeros(Cardinality);
      Twiddles := TwiddleTables(Generator, nbStages);
      TwiddlesInv := TwiddleTables(GeneratorInv, nbStages);
      var cosetTable, cosetTableInv :=
        CosetTables(FinerGenerator, FinerGeneratorInv, NbCosets(Depth), Cardinality, numCpu);
      CosetTable := cosetTable;
      CosetTableInv := cosetTableInv;
    }

    /** reverseCosetTables: for each of the 2^Depth - 1 cosets, a fresh
        table of Cardinality entries receives a copy of the coset table,
        which is then bit-reversed in place. The coset tables themselves
        and every other field are unchanged. */
    method ReverseCosetTables()
      requires IsPowerOfTwo(Cardinality)
      requires |CosetTable| >= NbCosets(Depth) && |CosetTableInv| >= NbCosets(Depth)
      modifies this`CosetTableReversed, this`CosetTableInvReversed
      ensures IsReversedTables(CosetTableReversed, CosetTable, NbCosets(Depth), Cardinality)
      ensures IsReversedTables(CosetTableInvReversed, CosetTableInv, NbCosets(Depth), Cardinality)
    {
      var n, ct, ctInv := Cardinality, CosetTable, CosetTableInv;
      var nbCosets := NbCosets(Depth);
      var rev: seq<seq<int>> := [];
      var revInv: seq<seq<int>> := [];
      for i := 0 to nbCosets
        modifies {}
        invariant IsReversedTables(rev, ct, i, n)
        invariant IsReversedTables(revInv, ctInv, i, n)
      {
        var r := ReversedCopy(ct[i], n);
        var rInv := ReversedCopy(ctInv[i], n);
        rev := rev + [r];
        revInv := revInv + [rInv];
      }
      CosetTableReversed := rev;
      CosetTableInvReversed := revInv;
    }
  }

  /** The generator of the subgroup of order 2^logGen: RootOfUnity raised
      to 2^(MaxOrderRoot - logGen). */
  function SubgroupGenerator(logGen: nat): int
    requires logGen <= MaxOrderRoot
  {
    Pow(RootOfUnity, Pow2(MaxOrderRoot - logGen))
  }

  /** The finer generator raised to 2^depth is the domain's generator, and
      the generator raised to the domain's size 2^logx is
      RootOfUnity^(2^MaxOrderRoot), the identity when RootOfUnity has the
      order it is meant to have. */
  lemma SubgroupGenerators(logx: nat, depth: nat)
    requires logx + depth <= MaxOrderRoot
    ensures Pow(SubgroupGenerator(logx + depth), Pow2(depth)) == SubgroupGenerator(logx)
    ensures Pow(SubgroupGenerator(logx), Pow2(logx)) == Pow(RootOfUnity, Pow2(MaxOrderRoot))
  {
    RootPowers(RootOfUnity, MaxOrderRoot, logx, depth);
    assert MaxOrderRoot - (logx + depth) == MaxOrderRoot - logx - depth;
  }

  /** NewDomain(m, depth, precomputeReversedTable): a domain of the first
      power-of-two size x >= m, or a panic when x exceeds 2^20 or x * 2^depth
      does. The generators are the roots of unity of orders x and
      x * 2^depth, each *Inv field is the field inverse of its partner, the
      tables are those of PreComputeTwiddles, and the reversed coset tables
      are built only when depth > 0 and requested. numCpu stands for
      runtime.NumCPU(). */
  method NewDomain(m: nat, depth: nat, precomputeReversedTable: bool, numCpu: nat)
    returns (r: Result<Domain>)
    ensures r == Err(SizeTooBig) <==> Log2Ceil(m) > MaxOrderRoot
    ensures r == Err(CosetsTooBig) <==> Log2Ceil(m) <= MaxOrderRoot < Log2Ceil(m) + depth
    ensures r.Ok? ==> fresh(r.value)
    ensures r.Ok? ==> r.value.Cardinality == NextPowerOfTwo(m) && r.value.Depth == depth
    ensures r.Ok? ==> r.value.PrecomputeReversedTable == if precomputeReversedTable then 1 else 0
    ensures r.Ok? ==> Log2Ceil(m) + depth <= MaxOrderRoot
    ensures r.Ok? ==> r.value.Generator == SubgroupGenerator(Log2Ceil(m))
    ensures r.Ok? ==> r.value.FinerGenerator == SubgroupGenerator(Log2Ceil(m) + depth)
    ensures r.Ok? ==> r.value.GeneratorInv == Inverse(r.value.Generator, R)
    ensures r.Ok? ==> r.value.FinerGeneratorInv == Inverse(r.value.FinerGenerator, R)
    ensures r.Ok? ==> r.value.CardinalityInv == Inverse(r.value.Cardinality, R)
    ensures r.Ok? ==> IsTwiddleTables(r.value.Twiddles, r.value.Generator, Log2Ceil(m))
    ensures r.Ok? ==> IsTwiddleTables(r.value.TwiddlesInv, r.value.GeneratorInv, Log2Ceil(m))
    ensures r.Ok? ==>
      IsCosetTables(r.value.CosetTable, r.value.FinerGenerator, NbCosets(depth), r.value.Cardinality)
    ensures r.Ok? ==>
      IsCosetTables(r.value.CosetTableInv, r.value.FinerGeneratorInv, NbCosets(depth), r.value.Cardinality)
    ensures r.Ok? && depth > 0 && precomputeReversedTable ==>
      IsReversedTables(r.value.CosetTableReversed, r.value.CosetTable, NbCosets(depth), r.value.Cardinality)
    ensures r.Ok? && depth > 0 && precomputeReversedTable ==>
      IsReversedTables(r.value.CosetTableInvReversed, r.value.CosetTableInv, NbCosets(depth), r.value.Cardinality)
    ensures r.Ok? && !(depth > 0 && precomputeReversedTable) ==>
      |r.value.CosetTableReversed| == 0 && |r.value.CosetTableInvReversed| == 0
  {
    var x := NextPowerOfTwo(m);
    var logx := TrailingZeros(x);
    if logx > MaxOrderRoot {
      return Err(SizeTooBig);
    }
    var logGen := logx + depth;
    if logGen > MaxOrderRoot {
      return Err(CosetsTooBig);
    }

    var finer := SubgroupGenerator(logGen);
    var gen := SubgroupGenerator(logx);
    var d := new Domain(x, Inverse(x, R), depth, if precomputeReversedTable then 1 else 0,
                        gen, Inverse(gen, R), finer, Inverse(finer, R));

    d.PreComputeTwiddles(numCpu);

    if depth > 0 && precomputeReversedTable {
      d.ReverseCosetTables();
    }
    return Ok(d);
  }

  /** The reversed copies NewDomain stores are the bit reversals of the
      coset tables, and reversing them again gives the coset tables back. */
  lemma ReversedCosetTables(rev: seq<seq<int>>, ct: seq<seq<int>>, g: int, nbCosets: nat, n: nat)
    requires IsPowerOfTwo(n) && IsCosetTables(ct, g, nbCosets, n)
    requires IsReversedTables(rev, ct, nbCosets, n)
    ensures forall i :: 0 <= i < nbCosets ==>
      IsBitReversal(rev[i], ct[i]) && IsBitReversal(ct[i], rev[i])
  {
    forall i | 0 <= i < nbCosets
      ensures IsBitReversal(rev[i], ct[i]) && IsBitReversal(ct[i], rev[i])
    {
      ReversedCopyOfFullTable(rev[i], ct[i]);
      BitReversalInvolution(rev[i], ct[i]);
    }
  }

  /** Each coset table entry of the finer generator's inverse inverts the
      matching entry of the coset table: the two tables describe inverse
      cosets. */
  lemma CosetTablesInverse(ct: seq<seq<int>>, ctInv: seq<seq<int>>, g: int, gInv: int,
                           nbCosets: nat, n: nat)
    requires Congruent(g * gInv, 1, R)
    requires IsCosetTables(ct, g, nbCosets, n) && IsCosetTables(ctInv, gInv, nbCosets, n)
    ensures forall i, j :: 0 <= i < nbCosets && 0 <= j < n ==>
      Congruent(ct[i][j] * ctInv[i][j], 1, R)
  {
    forall i | 0 <= i < nbCosets
      ensures forall j :: 0 <= j < n ==> Congruent(ct[i][j] * ctInv[i][j], 1, R)
    {
      PowInverse(g, gInv, i + 1, R);
      PowerTablesInverse(ct[i], ctInv[i], Pow(g, i + 1), Pow(gInv, i + 1), n, R);
    }
  }
}
