// The tables every FFT domain precomputes, shared by the BN254 and the
// BW6-633 domains (their fft packages hold the same code): power tables
// filled in chunks, the per-stage twiddle tables, the bit-reversal
// permutation applied to copies of the coset tables, and the power-of-two
// size helpers. Elements of the scalar field Fr are modelled by integer
// representatives without reduction, so every table entry is an exact
// power of its generator; inverses are taken modulo the field's order.
// The goroutines that fill the tables in parallel are modelled as
// sequential loops: each one writes a part of the table that no other
// touches.
module FftTables {
  import opened Modular
  import opened PowersOfTwo

  /** Why a domain cannot be built: the 2-adic root of unity of the field
      has too small an order for the requested size, or for the size
      combined with the requested coset depth. */
  datatype Failure = SizeTooBig | CosetsTooBig

  /** A value, or the failure that makes the Go code return an error or
      panic. */
  datatype Result<T> = Ok(value: T) | Err(failure: Failure)

  // ---------------------------------------------------------------------
  // Powers

  /** w^k: what fr.Element.Exp computes, and what a chain of k
      multiplications by w starting from one computes. */
  function Pow(w: int, k: nat): int
  {
    if k == 0 then 1 else Pow(w, k - 1) * w
  }

  lemma {:induction false} PowAdd(w: int, a: nat, b: nat)
    ensures Pow(w, a + b) == Pow(w, a) * Pow(w, b)
    decreases b
  {
    if b > 0 {
      PowAdd(w, a, b - 1);
      assert Pow(w, a + b) == Pow(w, a + (b - 1)) * w;
    }
  }

  lemma {:induction false} PowMul(w: int, a: nat, b: nat)
    ensures Pow(Pow(w, a), b) == Pow(w, a * b)
    decreases b
  {
    if b > 0 {
      PowMul(w, a, b - 1);
      PowAdd(w, a * (b - 1), a);
      assert a * (b - 1) + a == a * b;
    }
  }

  /** Powers of mutually inverse elements are mutually inverse. */
  lemma {:induction false} PowInverse(x: int, y: int, k: nat, m: int)
    requires m > 0 && Congruent(x * y, 1, m)
    ensures Congruent(Pow(x, k) * Pow(y, k), 1, m)
    decreases k
  {
    if k > 0 {
      PowInverse(x, y, k - 1, m);
      var a := Pow(x, k - 1) * Pow(y, k - 1);
      assert Pow(x, k) * Pow(y, k) == a * (x * y) by {
        MulSwap(Pow(x, k - 1), x, Pow(y, k - 1), y);
      }
      CongruentMul(a, 1, x * y, m);
      CongruentTrans(a * (x * y), x * y, 1, m);
    }
  }

  lemma MulSwap(a: int, b: int, c: int, d: int)
    ensures (a * b) * (c * d) == (a * c) * (b * d)
  {
  }

  /** The generator of a 2^logx subgroup, taken from a root of unity of
      order 2^maxOrder, and the finer generator of the 2^(logx+depth)
      subgroup: raising the finer one to 2^depth gives the coarser one, and
      raising the coarser one to the size 2^logx gives root^(2^maxOrder),
      which is one when the root has the order it is meant to have. */
  lemma RootPowers(root: int, maxOrder: nat, logx: nat, depth: nat)
    requires logx + depth <= maxOrder
    ensures Pow(Pow(root, Pow2(maxOrder - logx - depth)), Pow2(depth))
         == Pow(root, Pow2(maxOrder - logx))
    ensures Pow(Pow(root, Pow2(maxOrder - logx)), Pow2(logx)) == Pow(root, Pow2(maxOrder))
  {
    PowMul(root, Pow2(maxOrder - logx - depth), Pow2(depth));
    Pow2Add(maxOrder - logx - depth, depth);
    PowMul(root, Pow2(maxOrder - logx), Pow2(logx));
    Pow2Add(maxOrder - logx, logx);
  }

  // ---------------------------------------------------------------------
  // Sizes

  /** The number of doublings that take 1 to the first power of two at
      least m. */
  function Log2Ceil(m: nat): (l: nat)
    ensures Pow2(l) >= m
    ensures l > 0 ==> Pow2(l - 1) < m
  {
    if m <= 1 then 0
    else
      var l' := Log2Ceil((m + 1) / 2);
      assert Pow2(l' + 1) == 2 * Pow2(l');
      assert l' > 0 ==> Pow2(l') == 2 * Pow2(l' - 1);
      l' + 1
  }

  /** bits.TrailingZeros64: the number of low zero bits (64 for zero). */
  function TrailingZeros(x: nat): nat
  {
    if x == 0 then 64
    else if x % 2 == 1 then 0
    else 1 + TrailingZeros(x / 2)
  }

  predicate IsPowerOfTwo(n: nat)
  {
    n >= 1 && n == Pow2(TrailingZeros(n))
  }

  lemma {:induction false} TrailingZerosPow2(k: nat)
    ensures TrailingZeros(Pow2(k)) == k
  {
    if k > 0 {
      TrailingZerosPow2(k - 1);
      Pow2Positive(k - 1);
      assert Pow2(k) / 2 == Pow2(k - 1);
    }
  }

  /** ecc.NextPowerOfTwo, which lives outside the files modelled here: the
      smallest power of two that is at least m (one for m = 0). The body is
      a reference realisation of that contract. */
  function NextPowerOfTwo(m: nat): (x: nat)
    ensures IsPowerOfTwo(x) && TrailingZeros(x) == Log2Ceil(m)
    ensures x >= m
    ensures x > 1 ==> x / 2 < m
  {
    TrailingZerosPow2(Log2Ceil(m));
    Pow2Positive(Log2Ceil(m));
    Pow2(Log2Ceil(m))
  }

  // ---------------------------------------------------------------------
  // Power tables

  /** t holds n entries, and entry k is w^k. */
  predicate IsPowerTable(t: seq<int>, w: int, n: nat)
  {
    |t| == n && forall k :: 0 <= k < n ==> t[k] == Pow(w, k)
  }

  /** The ratio of the cost of an exponentiation to the cost of a
      multiplication: below this many entries per worker, filling a table
      with one chain of multiplications is cheaper than splitting it. */
  const RatioExpMul: int := 6000 / 17

  /** precomputeExpTableChunk on the slice table[lo:hi]: the first entry
      is w^power and each next one is the previous times w. An empty slice
      is left alone. */
  method PrecomputeExpTableChunk(w: int, power: nat, table: array<int>, lo: nat, hi: nat)
    requires lo <= hi <= table.Length
    modifies table
    ensures forall k :: lo <= k < hi ==> table[k] == Pow(w, power + (k - lo))
    ensures forall k :: 0 <= k < table.Length && !(lo <= k < hi) ==> table[k] == old(table[k])
  {
    if hi - lo > 0 {
      table[lo] := Pow(w, power);
      for i := lo + 1 to hi
        invariant forall k :: lo <= k < i ==> table[k] == Pow(w, power + (k - lo))
        invariant forall k :: 0 <= k < table.Length && !(lo <= k < hi) ==> table[k] == old(table[k])
      {
        table[i] := table[i - 1] * w;
      }
    }
  }

  /** precomputeExpTable: entries 1 .. n-1 become w^1 .. w^(n-1), whatever
      the number of CPUs and hence the chunking; entry 0 is the caller's.
      The table must not be empty (the Go code slices table[1:]). */
  method PrecomputeExpTable(w: int, table: array<int>, numCpu: nat)
    requires table.Length >= 1
    modifies table
    ensures table[0] == old(table[0])
    ensures forall k :: 1 <= k < table.Length ==> table[k] == Pow(w, k)
  {
    var n := table.Length;
    var interval := 0;
    if numCpu >= 4 {
      interval := (n - 1) / (numCpu / 4);
    }
    if interval < RatioExpMul {
      PrecomputeExpTableChunk(w, 1, table, 1, n);
      return;
    }
    var i := 1;
    while i < n
      invariant 1 <= i
      invariant table[0] == old(table[0])
      invariant forall k :: 1 <= k < i && k < n ==> table[k] == Pow(w, k)
      decreases n - i
    {
      var start := i;
      var end := i + interval;
      if end > n {
        end := n;
      }
      PrecomputeExpTableChunk(w, start, table, start, end);
      i := i + interval;
    }
  }

  /** The expTable closure of preComputeTwiddles on a fresh table of n
      entries: entry 0 is one and precomputeExpTable fills the rest, so the
      whole table lists the powers of w. */
  method ExpTable(w: int, n: nat, numCpu: nat) returns (t: seq<int>)
    requires n >= 1
    ensures IsPowerTable(t, w, n)
  {
    var table := new int[n](_ => 0);
    table[0] := 1;
    PrecomputeExpTable(w, table, numCpu);
    t := table[..];
  }

  /** Entries of power tables of mutually inverse elements are mutually
      inverse. */
  lemma PowerTablesInverse(t: seq<int>, tInv: seq<int>, w: int, wInv: int, n: nat, m: int)
    requires m > 0 && Congruent(w * wInv, 1, m)
    requires IsPowerTable(t, w, n) && IsPowerTable(tInv, wInv, n)
    ensures forall k :: 0 <= k < n ==> Congruent(t[k] * tInv[k], 1, m)
  {
    forall k | 0 <= k < n
      ensures Congruent(t[k] * tInv[k], 1, m)
    {
      PowInverse(w, wInv, k, m);
    }
  }

  // ---------------------------------------------------------------------
  // Twiddle tables

  /** One stage's table: n entries stepping by omega^stride, so entry j
      is omega^(stride * j). */
  predicate IsTwiddleRow(r: seq<int>, omega: int, stride: nat, n: nat)
  {
    |r| == n && forall j :: 0 <= j < n ==> r[j] == Pow(omega, stride * j)
  }

  /** Stage i of an FFT of nbStages stages: 1 + 2^(nbStages-i-1) entries
      stepping by omega^(2^i). */
  predicate IsTwiddleStage(r: seq<int>, omega: int, i: nat, nbStages: nat)
    requires i < nbStages
  {
    IsTwiddleRow(r, omega, Pow2(i), 1 + Pow2(nbStages - i - 1))
  }

  /** The twiddle factors of an FFT of nbStages stages with root omega:
      stage i has 1 + 2^(nbStages-i-1) entries, and entry j of stage i is
      omega^(2^i * j). */
  predicate IsTwiddleTables(t: seq<seq<int>>, omega: int, nbStages: nat)
  {
    |t| == nbStages &&
    forall i :: 0 <= i < nbStages ==> IsTwiddleStage(t[i], omega, i, nbStages)
  }

  /** The twiddles closure of preComputeTwiddles: stage 0 steps by omega,
      and every later stage steps by entry 2 of the stage before it. */
  method TwiddleTables(omega: int, nbStages: nat) returns (t: seq<seq<int>>)
    ensures IsTwiddleTables(t, omega, nbStages)
  {
    t := [];
    for i := 0 to nbStages
      invariant |t| == i
      invariant forall s :: 0 <= s < i ==> IsTwiddleStage(t[s], omega, s, nbStages)
    {
      Pow2Positive(nbStages - i - 1);
      var w;
      if i == 0 {
        w := omega;
        assert Pow(omega, Pow2(0)) == omega;
      } else {
        StageBase(t[i - 1], omega, i, nbStages);
        w := t[i - 1][2];
      }
      var row := FillStage(omega, Pow2(i), w, 1 + Pow2(nbStages - i - 1));
      assert IsTwiddleStage(row, omega, i, nbStages);
      t := t + [row];
    }
  }

  /** One stage of the twiddles closure: entry 0 is 1, entry 1 is
      w = omega^stride, and every later entry is the one before it times w. */
  method FillStage(omega: int, stride: nat, w: int, n: nat) returns (r: seq<int>)
    requires w == Pow(omega, stride) && n >= 2
    ensures IsTwiddleRow(r, omega, stride, n)
  {
    var row := new int[n](_ => 0);
    row[0] := 1;
    row[1] := w;
    assert Pow(omega, stride * 0) == 1;
    assert stride * 1 == stride;
    for j := 2 to n
      invariant forall k :: 0 <= k < j ==> row[k] == Pow(omega, stride * k)
    {
      PowAdd(omega, stride * (j - 1), stride);
      assert stride * (j - 1) + stride == stride * j;
      row[j] := row[j - 1] * w;
    }
    r := row[..];
  }

  /** Entry 2 of the table of stage i - 1 exists and is omega^(2^i). */
  lemma StageBase(r: seq<int>, omega: int, i: nat, nbStages: nat)
    requires 0 < i < nbStages
    requires IsTwiddleStage(r, omega, i - 1, nbStages)
    ensures |r| > 2 && r[2] == Pow(omega, Pow2(i))
  {
    assert Pow2(nbStages - i) == 2 * Pow2(nbStages - i - 1) by {
      assert nbStages - i == (nbStages - i - 1) + 1;
    }
    Pow2Positive(nbStages - i - 1);
    assert Pow2(i - 1) * 2 == Pow2(i);
  }

  /** Stage i + 1 holds every other entry of stage i: each stage of the
      FFT halves the transform size and doubles the stride. */
  lemma TwiddleStages(t: seq<seq<int>>, omega: int, nbStages: nat, i: nat, j: nat)
    requires IsTwiddleTables(t, omega, nbStages)
    requires i + 1 < nbStages && j < |t[i + 1]|
    ensures 2 * j < |t[i]| && t[i + 1][j] == t[i][2 * j]
  {
    assert IsTwiddleStage(t[i], omega, i, nbStages);
    assert IsTwiddleStage(t[i + 1], omega, i + 1, nbStages);
    assert Pow2(nbStages - i - 1) == 2 * Pow2(nbStages - i - 2) by {
      assert nbStages - i - 1 == (nbStages - i - 2) + 1;
    }
    assert Pow2(i + 1) * j == Pow2(i) * (2 * j);
  }

  /** The twiddles of the inverse generator invert the twiddles of the
      generator, entry by entry. */
  lemma TwiddlesInverse(t: seq<seq<int>>, tInv: seq<seq<int>>, g: int, gInv: int,
                        nbStages: nat, m: int)
    requires m > 0 && Congruent(g * gInv, 1, m)
    requires IsTwiddleTables(t, g, nbStages) && IsTwiddleTables(tInv, gInv, nbStages)
    ensures forall i :: 0 <= i < nbStages ==> |tInv[i]| == |t[i]|
    ensures forall i, j :: 0 <= i < nbStages && 0 <= j < |t[i]| ==>
      Congruent(t[i][j] * tInv[i][j], 1, m)
  {
    forall i | 0 <= i < nbStages
      ensures |tInv[i]| == |t[i]|
    {
      assert IsTwiddleStage(t[i], g, i, nbStages);
      assert IsTwiddleStage(tInv[i], gInv, i, nbStages);
    }
    forall i, j | 0 <= i < nbStages && 0 <= j < |t[i]|
      ensures Congruent(t[i][j] * tInv[i][j], 1, m)
    {
      assert IsTwiddleStage(t[i], g, i, nbStages);
      assert IsTwiddleStage(tInv[i], gInv, i, nbStages);
      PowInverse(g, gInv, Pow2(i) * j, m);
    }
  }

  // ---------------------------------------------------------------------
  // Bit reversal

  /** Bits 0 .. l-1 of k in reverse order. */
  function ReverseBits(k: nat, l: nat): (r: nat)
    ensures r < Pow2(l)
  {
    if l == 0 then 0 else (k % 2) * Pow2(l - 1) + ReverseBits(k / 2, l - 1)
  }

  /** Splitting k < 2h into its low bit, the bits above it below h, and
      its top bit. */
  lemma DivModTwo(k: nat, h: nat)
    requires h >= 1
    ensures (k % (2 * h)) % 2 == k % 2
    ensures (k % (2 * h)) / 2 == (k / 2) % h
    ensures (k / 2) / h == k / (2 * h)
  {
    var b := k % 2;
    var q := k / 2;
    var c := q / h;
    var e := q % h;
    assert k == (2 * h) * c + (2 * e + b) by {
      assert k == 2 * q + b;
      assert q == h * c + e;
    }
    DivModUnique(k, 2 * h, c, 2 * e + b);
    DivModUnique(2 * e + b, 2, e, b);
  }

  /** Reversing l + 1 bits moves the top bit to the bottom. */
  lemma {:induction false} ReverseBitsTop(k: nat, l: nat)
    requires k < Pow2(l + 1)
    ensures ReverseBits(k, l + 1) == 2 * ReverseBits(k % Pow2(l), l) + k / Pow2(l)
    decreases l
  {
    if l > 0 {
      var h := Pow2(l - 1);
      Pow2Positive(l - 1);
      assert Pow2(l) == 2 * h;
      var b, q := k % 2, k / 2;
      assert q < Pow2(l);
      ReverseBitsTop(q, l - 1);
      var inner := ReverseBits(q % h, l - 1);
      assert ReverseBits(q, l) == 2 * inner + q / h;
      DivModTwo(k, h);
      assert ReverseBits(k % Pow2(l), l) == b * h + inner;
      assert ReverseBits(k, l + 1) == b * Pow2(l) + ReverseBits(q, l);
      assert b * Pow2(l) == 2 * (b * h);
    }
  }

  /** Reversing l bits twice gives back every number below 2^l. */
  lemma {:induction false} ReverseBitsInvolution(k: nat, l: nat)
    requires k < Pow2(l)
    ensures ReverseBits(ReverseBits(k, l), l) == k
    decreases l
  {
    if l > 0 {
      var h := Pow2(l - 1);
      var r := ReverseBits(k / 2, l - 1);
      var j := ReverseBits(k, l);
      assert j == (k % 2) * h + r;
      ReverseBitsTop(j, l - 1);
      Pow2Positive(l - 1);
      DivModUnique(j, h, k % 2, r);
      ReverseBitsInvolution(k / 2, l - 1);
    }
  }

  /** r is s in bit-reversed order: entry k of r is the entry of s at the
      bit-reversed index of k. Defined on power-of-two lengths (and the
      empty sequence). */
  predicate IsBitReversal(r: seq<int>, s: seq<int>)
    requires |s| == 0 || IsPowerOfTwo(|s|)
  {
    |r| == |s| &&
    forall k :: 0 <= k < |s| ==> r[k] == s[ReverseBits(k, TrailingZeros(|s|))]
  }

  /** Bit reversal is an involution: reversing the reversed table gives
      back the original. */
  lemma BitReversalInvolution(r: seq<int>, s: seq<int>)
    requires |s| == 0 || IsPowerOfTwo(|s|)
    requires IsBitReversal(r, s)
    ensures IsBitReversal(s, r)
  {
    var l := TrailingZeros(|s|);
    forall k | 0 <= k < |s|
      ensures s[k] == r[ReverseBits(k, l)]
    {
      ReverseBitsInvolution(k, l);
    }
  }

  /** BitReverse, which lives outside the files modelled here: permutes a
      power-of-two-sized slice in place into bit-reversed order. The body
      is a reference realisation of that contract. */
  method BitReverse(a: array<int>)
    requires a.Length == 0 || IsPowerOfTwo(a.Length)
    modifies a
    ensures IsBitReversal(a[..], old(a[..]))
  {
    if a.Length > 0 {
      var s := a[..];
      var l := TrailingZeros(a.Length);
      forall k | 0 <= k < a.Length {
        a[k] := s[ReverseBits(k, l)];
      }
    }
  }

  /** Entry j of a copy of s into a zeroed table: s[j] where s has it,
      zero beyond. */
  function CopiedEntry(s: seq<int>, j: nat): int
  {
    if j < |s| then s[j] else 0
  }

  /** copy(dst, src): overwrites the first min(len(dst), len(src)) entries. */
  method CopyInto(dst: array<int>, src: seq<int>)
    modifies dst
    ensures forall k :: 0 <= k < dst.Length ==>
      dst[k] == (if k < |src| then src[k] else old(dst[k]))
  {
    forall k | 0 <= k < dst.Length && k < |src| {
      dst[k] := src[k];
    }
  }

  /** r is what reverseCosetTables stores for a table s: a fresh table of n
      entries receives a copy of s and is bit-reversed in place. */
  predicate IsReversedCopy(r: seq<int>, s: seq<int>, n: nat)
    requires IsPowerOfTwo(n)
  {
    |r| == n &&
    forall k :: 0 <= k < n ==> r[k] == CopiedEntry(s, ReverseBits(k, TrailingZeros(n)))
  }

  /** A reversed copy of a table of the full size is its bit reversal. */
  lemma ReversedCopyOfFullTable(r: seq<int>, s: seq<int>)
    requires IsPowerOfTwo(|s|) && IsReversedCopy(r, s, |s|)
    ensures IsBitReversal(r, s)
  {
  }

  /** The reversed copy of one coset table; the table itself is a value
      and is not modified. */
  method ReversedCopy(s: seq<int>, n: nat) returns (r: seq<int>)
    requires IsPowerOfTwo(n)
    ensures IsReversedCopy(r, s, n)
  {
    var a := new int[n](_ => 0);
    CopyInto(a, s);
    ghost var c := a[..];
    assert forall j :: 0 <= j < n ==> c[j] == CopiedEntry(s, j);
    BitReverse(a);
    r := a[..];
  }
}
