# Pairing arithmetic and FFT domains of gnark-crypto, in Dafny

This project models four pieces of the gnark-crypto Go library and proves
properties of them.

- **The Fp12 tower of BLS12-377** (`bls377/e12.go`), in `bls377_e12.dfy`.
  Fp12 = Fp6[w]/(w^2 - v) over Fp6 = Fp2[v]/(v^3 - u) and Fp2 = Fp[u]/(u^2 - 5).
  It covers equality, assignment, one, addition, subtraction, doubling, the
  Karatsuba product, squaring, the Fp4 squaring helper, the cyclotomic square
  (Granger–Scott), inversion, unitary inversion and conjugation.
  - `E12` is a class whose methods overwrite the receiver, exactly as the Go
    methods do, and it is safe when the receiver aliases an argument.
  - `Fp12` is the value the class holds; the specification functions and the
    algebraic lemmas live on it.
  - The Fp2 and Fp6 arithmetic E12 relies on (`e2.go`, `e6.go` are not part of
    this model) is given as reference definitions in `bls377_tower.dfy`, with the
    ring and inverse lemmas E12 needs.
- **The BW6-761 pairing** (`bw761/pairing.go`), in `bw761_lines.dfy` and
  `bw761_pairing.dfy`.
  - The Miller loop follows Algorithm 5 of eprint 2020/351, with its two NAF
    loops over `loopCounter1` and `loopCounter2`.
  - The final exponentiation is the easy part (p^3 - 1)(p + 1) followed by the
    hard part (Appendix B of the same paper). The hard part is a schedule of
    Frobenius maps, exponentiations by the seed t, cyclotomic squarings and
    products.
  - `Expt` computes the exponentiation by t with an addition chain.
  - The line evaluations and the sparse multiplications by y·v^-3, y·v^-2 and
    y·v^-5 are modelled at the coordinate level in `bw761_lines.dfy`.
  - `bw761_pairing.dfy` works in an exponent model of the target group: a
    pairing result is g^e for one fixed generator g of the cyclic group
    Fp6*, represented by e. The
    Frobenius map multiplies e by the characteristic p.
  - With these, the final exponentiation provably raises its input to
    (p^3 - 1)(p + 1)·H, where H = h0(t) + p·h1(t) + p^3·h3(t) + p^4·h4(t) is
    read off the schedule.
  - The Miller loop provably computes the two-pass Miller function built from
    the line values.
  - The Go type `PairingResult` appears twice. In `Bw761Lines` it is a class
    over the six Fp coordinates, and `MulAssign` multiplies it by a line
    value in place. In `Bw761Pairing` it is the exponent-model datatype. There,
    the Miller loop's `line(a, b)` parameter stands for the element that
    `LineEvalJac` or `LineEvalAffine` computes and `MulAssign` multiplies in.
- **The FFT domains of BN254 and BW6-633** (`ecc/bn254/fr/fft/domain.go`,
  `ecc/bw6-633/fr/fft/domain.go`), in `bn254_fft.dfy`, `bw6633_fft.dfy` and the
  shared `fft_tables.dfy`. The two packages hold the same table code.
  - `NewDomain` picks the power-of-two size and the subgroup generator, or
    panics when the 2-adic root of unity is too small.
  - `preComputeTwiddles` fills, per FFT stage, the twiddle tables of the
    generator and of its inverse, plus the coset power tables.
  - `reverseCosetTables` stores bit-reversed copies of the coset tables.
  - `precomputeExpTable` and `precomputeExpTableChunk` fill power tables in
    chunks.
  - Table fills are methods over arrays with loop invariants. A `Domain` is a
    class whose methods write only the fields they fill.
  - A panic is an `Err` outcome of `NewDomain`.

Field elements are integer representatives without reduction, so ring
identities are exact equalities. Field equality is congruence modulo the
prime, and inverses come from the extended Euclidean algorithm in
`modular.dfy`.

## Model

| member | source | states |
|---|---|---|
| Bls377E12.E12.Equal | bls377/e12.go:31-34 | returns true exactly when the two elements are equal as field elements (all twelve coordinates congruent) |
| Bls377E12.E12.Set | bls377/e12.go:48-53 | the receiver takes the value of x |
| Bls377E12.E12.SetOne | bls377/e12.go:55-70 | the receiver becomes the unit of Fp12 |
| Bls377E12.E12.Add | bls377/e12.go:88-93 | the receiver becomes x + y, read before the write (aliasing-safe) |
| Bls377E12.E12.Sub | bls377/e12.go:95-100 | the receiver becomes x - y |
| Bls377E12.E12.Double | bls377/e12.go:102-107 | the receiver becomes 2x |
| Bls377E12.E12.Mul | bls377/e12.go:126-162 | the Karatsuba steps leave x·y in the receiver, the product of Fp6[w]/(w^2 - v), even when the receiver is x or y |
| Bls377E12.E12.Square | bls377/e12.go:164-193 | the receiver becomes x·x (the complex-squaring steps compute the product of x with itself) |
| Bls377E12.Fp4Square | bls377/e12.go:195-202 | fp4Square returns the square of a + b·y in Fp2[y]/(y^2 - u) |
| Bls377E12.E12.CyclotomicSquare | bls377/e12.go:204-234 | the receiver becomes the Granger–Scott cyclotomic square of x, built from three Fp4 squarings |
| Bls377E12.E12.Inverse | bls377/e12.go:236-267 | the receiver becomes the inverse of x: x times the result is one modulo p whenever x is invertible |
| Bls377E12.E12.InverseUnitary | bls377/e12.go:269-273 | the receiver becomes the conjugate of x, which is its inverse when x is unitary |
| Bls377E12.E12.Conjugate | bls377/e12.go:275-280 | the receiver becomes C0 - C1·w |
| Bls377E12.KaratsubaMul | bls377/e12.go:126-162 | the three-multiplication Karatsuba formula equals the schoolbook product in Fp6[w]/(w^2 - v) |
| Bls377E12.SquareIsMulSelf | bls377/e12.go:164-193 | the squaring formula (C0^2 + v·C1^2, 2·C0·C1) equals x·x |
| Bls377E12.Fp4SquareFormula | bls377/e12.go:195-202 | fp4Square's formula (a^2 + u·b^2, 2ab) is the Fp4 product of a + b·y with itself |
| Bls377E12.OneCoefficients | bls377/e12.go:55-70 | SetOne's coordinates are 1, 0, ..., 0, and that element is a two-sided unit of the product |
| Bls377E12.AddSubRoundTrip | bls377/e12.go:88-107 | subtracting y undoes adding y and conversely; doubling is adding to itself |
| Bls377E12.ConjugateInvolution | bls377/e12.go:275-280 | conjugating twice gives the element back |
| Bls377E12.ConjugateMul | bls377/e12.go:275-280 | conjugation is multiplicative: conj(x·y) = conj(x)·conj(y) |
| Bls377E12.MulConjugate | bls377/e12.go:236-267 | x·conj(x) is the Fp6 norm C0^2 - v·C1^2 placed in the first coefficient, the quantity Inverse inverts |
| Bls377E12.UnitaryInverse | bls377/e12.go:269-273 | for a unitary x, x·conj(x) is one modulo p, so InverseUnitary returns the inverse |
| Bls377E12.Fp12InverseCorrect | bls377/e12.go:236-267 | for invertible x, x·Inverse(x) is one modulo p |
| Bls377E12.CyclotomicSquareConjugate | bls377/e12.go:204-234 | the cyclotomic square commutes with conjugation |
| Bls377E12.SquaredBlocksConjugate | bls377/e12.go:204-228 | the three Fp4 squarings of the conjugate are the conjugate of the squarings |
| Bls377E12.CyclotomicSquareOne | bls377/e12.go:204-234 | the cyclotomic square of one is one |
| Bls377E12.CyclotomicSquareBase | bls377/e12.go:204-234 | on an element a of Fp2 the cyclotomic square is 3a^2 - 2a, which is a's square exactly when a^2 = a |
| Bls377E12.SquaredBlocksBase | bls377/e12.go:204-228 | on an element a of Fp2 the three Fp4 squarings give a^2 |
| Bls377E12.ConjugateFixed | bls377/e12.go:275-280 | conjugation fixes x exactly when x has no w-part |
| Bw761Lines.ProjFromJacobian | bw761/pairing.go:264-268 | the projective form names the same affine point as the Jacobian input, by cross-multiplication |
| Bw761Lines.LineThroughVanishes | bw761/pairing.go:270-280 | the cross-product coefficients define a line that passes through both points |
| Bw761Lines.LineEvalJac | bw761/pairing.go:264-285 | the result holds the line through Q and R, both converted to projective, evaluated at P |
| Bw761Lines.LineEvalAffine | bw761/pairing.go:287-308 | the same for an affine R, taken with Z = 1 |
| Bw761Lines.AffineIsJacobian | bw761/pairing.go:287-308 | lineEvalAffine is lineEvalJac with R given Jacobian Z = 1, which is why the shortcut agrees |
| Bw761Lines.PairingResult.MulByVMinusThree | bw761/pairing.go:373-387 | the receiver becomes the sparse product defining z·(y·v^-3) |
| Bw761Lines.PairingResult.MulByVminusTwo | bw761/pairing.go:389-407 | the receiver becomes the sparse product defining z·(y·v^-2) |
| Bw761Lines.PairingResult.MulByVminusFive | bw761/pairing.go:409-427 | the receiver becomes the sparse product defining z·(y·v^-5) |
| Bw761Lines.MulByVMinusThreeIsProduct | bw761/pairing.go:373-387 | that sparse product is x times y·v^-3, with v^-3 = (-4)^-1·u |
| Bw761Lines.MulByVminusTwoIsProduct | bw761/pairing.go:389-407 | that sparse product is x times y·v^-2, modulo any m where FourInv inverts -4 |
| Bw761Lines.MulByVminusFiveIsProduct | bw761/pairing.go:409-427 | that sparse product is x times y·v^-5 |
| Bw761Lines.SparseProducts | bw761/pairing.go:373-427 | each sparse factor times its power of v gives (-4)·(-4)^-1·y, i.e. y modulo p: the factors are y·v^-3, y·v^-2, y·v^-5 |
| Bw761Lines.MinusFourInverse | bw761/pairing.go:373-427 | -4·(y·FourInv) is congruent to y wherever FourInv inverts -4 |
| Bw761Lines.LineEvalRes.MulAssign | bw761/pairing.go:316-325 | z becomes the sum of the three sparse products, each formed from the old z |
| Bw761Lines.MulAssignIsProduct | bw761/pairing.go:316-325 | that sum is z times the line element r1·v^-3 + r0·v^-2 + r2·v^-5 |
| Bw761Pairing.PairingResult.Expt | bw761/pairing.go:329-371 | the addition chain computes x^t for t = 9586122913090633729 |
| Bw761Pairing.EasyPart | bw761/pairing.go:39-44 | the easy-part steps raise x to (p^3 - 1)(p + 1) |
| Bw761Pairing.FrobeniusMul | bw761/pairing.go:57-61 | the Frobenius maps distribute over products |
| Bw761Pairing.FrobeniusPow | bw761/pairing.go:53-61 | the Frobenius maps commute with powers, so Frobenius(f[i]) = Frobenius(y)^(t^i) |
| Bw761Pairing.PairingResult.FinalExponentiation | bw761/pairing.go:32-155 | the result is x^((p^3 - 1)(p + 1)·H) with H = h0(t) + p·h1(t) + p^3·h3(t) + p^4·h4(t) |
| Bw761Pairing.HardPart | bw761/pairing.go:63-151 | the schedule returns the product of the table-given powers of f[k] and fp[k], with the p^3-part under a single Frobenius cube |
| Bw761Pairing.MulCubeMul | bw761/pairing.go:63-151 | folding a plain factor into a·c^(p^3) multiplies a |
| Bw761Pairing.MulCubeMulCube | bw761/pairing.go:63-151 | folding a Frobenius-cubed factor b^(p^3) multiplies c by b |
| Bw761Pairing.MulCubeSquare | bw761/pairing.go:63-151 | squaring a·c^(p^3) squares both a and c |
| Bw761Pairing.PlainFactorsValue | bw761/pairing.go:63-151 | the plain factors the schedule accumulates are Group0(f)·Group1(fp) |
| Bw761Pairing.CubedFactorsValue | bw761/pairing.go:63-151 | the Frobenius-cubed factors are Group3(f)·Group4(fp) |
| Bw761Pairing.Group0Value | bw761/pairing.go:63-151 | when f[k] = y^(t^k), the p^0 group equals y^h0(t) |
| Bw761Pairing.Group1Value | bw761/pairing.go:63-151 | when fp[k] = y'^(t^k), the p^1 group equals y'^h1(t) |
| Bw761Pairing.Group3Value | bw761/pairing.go:63-151 | the p^3 group of f equals y^h3(t) |
| Bw761Pairing.Group4Value | bw761/pairing.go:63-151 | the p^4 group of fp equals y'^h4(t) |
| Bw761Pairing.PolyInP | bw761/pairing.go:63-151 | combining the four groups, with y' = Frobenius(y), gives y^(h0 + p·h1 + p^3·h3 + p^4·h4) |
| Bw761Pairing.HardPartExponent | bw761/pairing.go:46-151 | for f[k] = y^(t^k) and fp[k] = Frobenius(y^(t^k)), the hard part gives y^H |
| Bw761Pairing.ProductExponent | bw761/pairing.go:18-30 | the product of the results multiplies their values (adds exponents) |
| Bw761Pairing.Curve.FinalExponentiation | bw761/pairing.go:18-30 | the product of z and the extra results, raised to (p^3 - 1)(p + 1)·H; its exponent is the sum of the arguments' exponents times (p^3 - 1)(p + 1)·H |
| Bw761Pairing.GroupOrderDivides | bw761/pairing.go:46 | r divides p^2 - p + 1 for the BW6-761 characteristic p |
| Bw761Pairing.HardExponentMultiple | bw761/pairing.go:46-47 | for the BW6-761 characteristic p, H is congruent to 3(t^3 - t^2 + 1)·(p^2 - p + 1)/r modulo p^2 - p + 1, and differs from it as an integer |
| Bw761Pairing.Curve.MillerLoop | bw761/pairing.go:157-259 | one if P or Q is at infinity; otherwise the two-pass Miller value built from the line values |
| Bw761Pairing.Curve.SecondPass | bw761/pairing.go:221-248 | the second NAF loop is the fold of the loop step over loopCounter2, from Q1 and result1 |
| Bw761Pairing.RunStep | bw761/pairing.go:170-196 | running n + 1 digits is running one step, then n more |
| Bw761Pairing.RunPoint | bw761/pairing.go:170-196 | after n digits the current point is 2^n·start plus base times the signed value of those digits |
| Bw761Pairing.RunSplit | bw761/pairing.go:221-248 | the second loop's value is a^(2^n)·result1^(signed value) times the loop run from one, so the extra multiplications raise result1 to the NAF value |
| Bw761Pairing.StepSplit | bw761/pairing.go:221-248 | one second-loop step splits the same way |
| Bw761Pairing.MillerLoopPoints | bw761/pairing.go:157-259 | after loop 1 the point is NAF(loopCounter1)·Q; after loop 2 it is NAF(loopCounter1)·NAF(loopCounter2)·Q |
| Bw761Pairing.MillerLoopDecomposition | bw761/pairing.go:157-259 | the Miller value is (f1^NAF2 · f_{NAF2, Q1})^p · f1 · l(Q1, Q) |
| FftTables.Log2Ceil | ecc/bn254/fr/fft/domain.go:100-108 | the exponent of the first power of two at least m: 2^l >= m, and 2^(l-1) < m when l > 0 |
| FftTables.NextPowerOfTwo | ecc/bn254/fr/fft/domain.go:70-71 | the smallest power of two at least m, whose trailing-zero count is Log2Ceil(m) |
| FftTables.TrailingZerosPow2 | ecc/bn254/fr/fft/domain.go:104-108 | TrailingZeros64 of 2^k is k |
| FftTables.PrecomputeExpTableChunk | ecc/bn254/fr/fft/domain.go:210-219 | entries lo .. hi-1 become w^power, w^(power+1), ...; nothing else changes |
| FftTables.PrecomputeExpTable | ecc/bn254/fr/fft/domain.go:176-208 | whatever numCPU and hence the chunking, entries 1 .. n-1 become w^1 .. w^(n-1); entry 0 is kept |
| FftTables.ExpTable | ecc/bn254/fr/fft/domain.go:160-164 | the expTable closure fills a table with the first n powers of w |
| FftTables.PowerTablesInverse | ecc/bn254/fr/fft/domain.go:166-170 | entry k of the table of w^-1 inverts entry k of the table of w |
| FftTables.TwiddleTables | ecc/bn254/fr/fft/domain.go:142-158 | stage i has 1 + 2^(nbStages-i-1) entries and entry j of stage i is omega^(2^i·j) |
| FftTables.FillStage | ecc/bn254/fr/fft/domain.go:144-155 | one stage: 1, w, w^2, ... with w = omega^stride |
| FftTables.StageBase | ecc/bn254/fr/fft/domain.go:145-150 | entry 2 of the previous stage exists and is omega^(2^i), the step of stage i |
| FftTables.TwiddleStages | ecc/bn254/fr/fft/domain.go:142-158 | stage i + 1 holds every other entry of stage i |
| FftTables.TwiddlesInverse | ecc/bn254/fr/fft/domain.go:166-167 | the twiddles of the inverse generator invert the twiddles of the generator, entry by entry |
| FftTables.ReverseBits | ecc/bn254/fr/fft/domain.go:125-126 | the bit reversal of an index of l bits is again an index of l bits |
| FftTables.ReverseBitsInvolution | ecc/bn254/fr/fft/domain.go:125-126 | reversing the bits twice gives the index back |
| FftTables.BitReversalInvolution | ecc/bn254/fr/fft/domain.go:125-126 | a bit-reversed table, bit-reversed again, is the original |
| FftTables.BitReverse | ecc/bn254/fr/fft/domain.go:125-126 | the slice is permuted in place into bit-reversed order |
| FftTables.CopyInto | ecc/bn254/fr/fft/domain.go:123-124 | copy overwrites the first min(len(dst), len(src)) entries and keeps the rest |
| FftTables.ReversedCopy | ecc/bn254/fr/fft/domain.go:121-126 | a fresh zeroed table of n entries takes the copy, then is bit-reversed |
| FftTables.ReversedCopyOfFullTable | ecc/bn254/fr/fft/domain.go:121-126 | the reversed copy of a full-size table is its bit reversal |
| Bn254Fft.Generator | ecc/bn254/fr/fft/domain.go:99-118 | an error exactly when log2 of the next power of two of m exceeds 28; otherwise rootOfUnity^(2^(28 - log x)), whose x-th power is rootOfUnity^(2^28) |
| Bn254Fft.GeneratorSquare | ecc/bn254/fr/fft/domain.go:114-116 | the generator of the domain of size 2x, squared, is the generator of the domain of size x |
| Bn254Fft.Log2CeilPow2 | ecc/bn254/fr/fft/domain.go:100-108 | for a power of two, the logarithm is exact |
| Bn254Fft.Domain.PreComputeTwiddles | ecc/bn254/fr/fft/domain.go:129-174 | Twiddles and TwiddlesInv are the stage tables of Generator and GeneratorInv; CosetTable and CosetTableInv list the first Cardinality powers of FrMultiplicativeGen and its inverse; no other field changes |
| Bn254Fft.Domain.ReverseCosetTables | ecc/bn254/fr/fft/domain.go:120-127 | the reversed tables are bit-reversed copies of the coset tables, of Cardinality entries |
| Bn254Fft.NewDomain | ecc/bn254/fr/fft/domain.go:67-97 | an error (the panic) exactly when the size is too big; otherwise a fresh domain of size NextPowerOfTwo(m) with the generator of Generator(m), shift 5 or shift[0], each *Inv its partner's inverse, and all tables as above |
| Bn254Fft.ReversedCosetTable | ecc/bn254/fr/fft/domain.go:120-127 | the stored reversed table is the bit reversal of the coset table, and reversing it again gives the coset table back |
| Bn254Fft.CosetTableInverse | ecc/bn254/fr/fft/domain.go:160-170 | each entry of CosetTableInv inverts the matching CosetTable entry |
| Bw6633Fft.CosetTables | ecc/bw6-633/fr/fft/domain.go:187-206 | coset i's table lists the first n powers of FinerGenerator^(i+1), and likewise for the inverse |
| Bw6633Fft.Domain.PreComputeTwiddles | ecc/bw6-633/fr/fft/domain.go:145-215 | twiddle tables of Generator and GeneratorInv; 2^Depth - 1 coset tables of FinerGenerator and its inverse; nothing else changes |
| Bw6633Fft.Domain.ReverseCosetTables | ecc/bw6-633/fr/fft/domain.go:131-143 | one bit-reversed copy per coset table, of Cardinality entries |
| Bw6633Fft.SubgroupGenerators | ecc/bw6-633/fr/fft/domain.go:107-116 | FinerGenerator^(2^depth) is Generator, and Generator^x is rootOfUnity^(2^20) |
| Bw6633Fft.NewDomain | ecc/bw6-633/fr/fft/domain.go:82-129 | panics (two distinct errors) exactly when log x > 20 or log x + depth > 20; otherwise the generators, inverses and tables above, reversed tables only when depth > 0 and requested |
| Bw6633Fft.ReversedCosetTables | ecc/bw6-633/fr/fft/domain.go:131-143 | each reversed table is the bit reversal of its coset table and reverses back to it |
| Bw6633Fft.CosetTablesInverse | ecc/bw6-633/fr/fft/domain.go:187-206 | entry j of inverse coset table i inverts entry j of coset table i |

## Left out

- Montgomery form, reduction modulo the primes and the concrete field
  arithmetic of Fp are not modelled. Elements are unreduced integers.
- The values of the BLS12-377 and Fr moduli are not modelled; the model leaves
  them unspecified. The BW6-761 characteristic is left unspecified in the
  pairing proofs, and its value is used only for the hard-part congruence. `ToMont`, `FromMont`, `String`, `SetString`
  and `SetRandom` of E12 are not modelled: they are representation changes,
  formatting and randomness.
- The Fp2 and Fp6 arithmetic under E12 (`e2.go`, `e6.go`) and the BW6-761 Fp6
  arithmetic are not part of this model. They are given as reference
  definitions with the laws the proofs need. The BLS12-377 tower takes u^2 = 5,
  as the inlined `MulByNonResidue` in `Square` does.
- Bls377E12.E12.CyclotomicSquare: the model does not prove that the cyclotomic
  square equals the square on the cyclotomic subgroup. That needs the subgroup
  membership of its input, which nothing in the file states.
- Bw761Pairing: the group operations are an exponent model (powers of one
  generator). The Fp6 representation of pairing results is not carried into
  the final exponentiation and the Miller loop.
  - In that model, `CyclotomicSquare` is the square.
  - The characteristic p is left unspecified.
- Bw761Pairing.PairingResult.FinalExponentiation: its contract is in terms
  of an unspecified p. The Go comment's claim that H is the multiple
  3(t^3 - t^2 + 1) of (p^2 - p + 1)/r holds only modulo p^2 - p + 1, not as
  an integer identity. `HardExponentMultiple` proves that congruence for the
  BW6-761 value of p. Its meaning in the exponent model needs the cyclotomic
  subgroup, whose orders divide p^2 - p + 1, and that subgroup is not
  modelled.
- Bw761Pairing.Curve.MillerLoop: the model does not compute line values from
  curve points; a function parameter `line(a, b)` supplies them. Points are
  kept as scalar multiples of Q.
  - The coordinate-level line evaluation is proved separately in
    `Bw761Lines`.
  - `Q1Neg` is the multiple `-q1`, so no negation of points is modelled.
- Bw761Pairing.HardPart: it is proved against an explicit product of powers.
  The bookkeeping functions `PlainFactors` and `CubedFactors` tally the
  schedule. Their value, in the cyclotomic subgroup, is what the code
  computes.
- The parsing of the hard-coded (-4)^-1 constant is not modelled.
  Bw761Lines.MulByVminusTwoIsProduct: its meaning holds modulo any m for
  which the constant inverts -4, p among them.
- The curve group operations (`G2Jac` doubling and addition, `FromAffine`,
  `Neg`) are not modelled.
- Goroutines, `sync.WaitGroup` and `runtime.NumCPU` are not modelled.
  - The parallel fills are sequential loops. Each goroutine writes a part of
    the table no other touches, so the order does not matter.
  - `numCpu` is a parameter.
- `WriteTo` and `ReadFrom` of the domains (serialisation I/O) are not
  modelled.
- `ecc.NextPowerOfTwo` and `BitReverse` live outside the modelled files. They
  have reference bodies that realise their documented contracts.
- FftTables.Log2Ceil, Bn254Fft.Generator and Bw6633Fft.NewDomain: uint64
  wrap-around of `m` and of the shifts is not modelled. Sizes are unbounded
  naturals, and the size checks reject everything above 2^28 (BN254) or
  2^20 (BW6-633) anyway.
- Bn254Fft.Generator and Bw6633Fft.SubgroupGenerators: the model does not
  prove that the hard-coded root of unity has exact order 2^28 (resp. 2^20).
  That needs computation modulo the field's order. The lemmas state the power
  relations that make the generators' orders divide the domain sizes when it
  does.
- Bn254Fft.NewDomain: only `shift[0]` is used, as in the Go code. In Go the
  `&Domain{}` allocation happens before the panic checks; in the model the
  domain is allocated after them, which nobody can observe since the panic
  discards it.
- The fields of the Go domains are slices that could alias each other. Here
  they are sequence-valued fields, so no aliasing between tables is modelled.
