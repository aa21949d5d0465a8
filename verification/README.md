# Models of the hashrate miner

These modules model the parts of the miner and of its vendored prover that carry arithmetic or a protocol,
and prove what callers rely on.

- **Transforms over a field** (`Fft`, `FftInterface`, `Dft`, `BitReversal`, `ReverseIndexBits`, `Transpose`,
  `Permutations`): the in-place FFT with its depth-first order, the zero-tail shortcut and the inverse
  transform; bit reversal of an array by tables, chunk moves and cache-oblivious transposes. A field is a
  record of operations with laws (`Fields`), and every theorem holds for every such record.
- **Field arithmetic** (`BatchInverse`, `FieldMethods`, `SquareRoots`, `NumberTheory`, `Goldilocks`,
  `GoldilocksExtensions`, `QuadraticExtensions`): Montgomery's batch inversion, powers and roots of unity,
  Tonelli-Shanks, the delayed reductions of the Goldilocks field on arbitrary 64-bit representatives, and
  the products of its extensions with 160-bit accumulators.
- **Openings** (`Barycentric`, `OpeningChecks`): the O(n) evaluation of columns at a point of the quadratic
  extension, inside or outside the subgroup.
- **BLAKE3 Merkle tree** (`Blake3`, `OrderedSets`, `MerkleTrees`, `MerkleProofs`, `MatrixProofs`,
  `SiblingRanges`, `TensorHashes`): layered against recursive hashing, completeness and binding of multi-leaf
  proofs, rows read out of them, chaining values of byte ranges, and the launch loop of the GPU.
- **Lookup arguments** (`Polynomials`, `ConstraintConsumers`, `Columns`, `HelperColumns`, `Lookups`, `PackedLookups`,
  `CrossTables`, `CrossTableVerifier`, `CrossTableSums`, `CrossTableData`, `CrossTableProofs`,
  `CrossTableVerdicts`): helper and Z columns, the constraints on them, and the cross-table comparison, each
  proved in both directions.
- **Mining configuration and targets** (`PeriodicPatterns`, `PatternLists`, `Difficulty`, `Reversal`): the
  canonical encoding of index patterns, their tiling of the naturals, and the 256-bit target arithmetic
  of miner and verifier.
- **The mining process** (`MinerBuffers`, `MiningLoops`, `MiningWorkers`, `MiningRuns`): the loop of one
  worker on its buffers and its device stream, at any pace of the device; and template poller, workers and
  hit channel as a step system in which any step of any thread may come next.

Digests are the terms that produced them, so that two digests are equal exactly when they hash the same
inputs in the same role. Random matrices and kernels' results are terms in the same way. An array that the
code changes in place is an array here, an object whose methods change its fields is a class, and each such
method is proved against a function of the old state.

What the code does not keep in general is stated with the exact condition under which it does:

- one-chunk trees and short last leaves (`MerkleProofs.HonestProofVerifies`, `MatrixProofs.RowsAreProven`);
- lookup table and frequency columns that read the next row, which the prover evaluates and the verifier
  does not (`Lookups.LookupAccepted`, `Lookups.ProverAcceptedIff`);
- cross-table entries of one table that are not neighbours (`CrossTableVerdicts.VerdictIff`);
- ranges of bytes on which the recursion for a chaining value does not end (`SiblingRanges.EndsAlone`);
- encodings of the target on which miner and verifier differ, products that are too large, and factors
  that wrap around in 64 bits (`Difficulty.TargetsAgreeIff`, `Difficulty.ExactMatches`,
  `Difficulty.WrappedMatches`);
- a device that is listed twice (`MiningRuns.NothingIsMinedTwice`).

Where comments and code differ, the code is followed: the comment on the target multiplication promises an
error on overflow, which products of 2^264 and more do not always give (`Difficulty.SilentOverflow`).

## Model

| member | source | states |
|---|---|---|
| Fft.RoundsCorrect | deps/plonky2/field/src/fft.rs:95-158 | rounds r to lg - 1 of butterflies on the bit-reversed coefficients, with every aligned run of 2^r values replaced by copies of its first, give the discrete Fourier transform, for every r with a zero tail |
| Fft.AllFinished | deps/plonky2/field/src/fft.rs:135-157 | the depth-first order of the butterflies, which finishes blocks as the binary digits of the position reached, ends in the same values as the recursive order, round by round |
| Fft.MergeBlock | deps/plonky2/field/src/fft.rs:145-155 | the butterflies of one block replace exactly its two halves by sum and difference, and touch nothing behind it |
| Fft.MergeUp | deps/plonky2/field/src/fft.rs:138-156 | after a unit is reached, every block that ends there is merged, smallest first, and nothing behind it changes |
| Fft.LoopEnd | deps/plonky2/field/src/fft.rs:136-138 | the loop over pairs of units ends exactly at the end of the array, for every r up to lg n |
| Fft.FftClassicSimd | deps/plonky2/field/src/fft.rs:95-158 | the in-place depth-first loop (width 1) leaves the values of the recursive rounds, for every power-of-two length |
| FftInterface.FftRootTable | deps/plonky2/field/src/fft.rs:14-33 | row t of the table holds the powers of the generator of order 2^(t+1), at least 2^t of them |
| FftInterface.SpreadInPlace | deps/plonky2/field/src/fft.rs:180-193 | the copy loop, which reads from the array it overwrites, replaces every run of 2^r values by its first |
| FftInterface.FftClassic | deps/plonky2/field/src/fft.rs:166-204 | bit reversal, copies and butterflies on one array leave the transform of the coefficients, for every zero factor that the zero tail allows |
| FftInterface.FftDispatch | deps/plonky2/field/src/fft.rs:36-45 | the same with a root table that is given or computed |
| FftInterface.FftWithOptions | deps/plonky2/field/src/fft.rs:53-61 | the coefficients are replaced by their values at the powers of the root of unity |
| Dft.TransformMerge | deps/plonky2/field/src/fft.rs:145-155 | a butterfly round turns the transforms of the even and odd coefficients into the transform of all |
| Dft.InverseTransform | deps/plonky2/field/src/fft.rs:68-91 | the transform of a transform at the inverse root is n times the coefficients |
| FftInterface.InverseAfterTransform | deps/plonky2/field/src/fft.rs:68-91 | the inverse transform of the transform gives the coefficients back |
| FftInterface.TransformAfterInverse | deps/plonky2/field/src/fft.rs:68-91 | the transform of the inverse transform gives the values back |
| FftInterface.IfftWithOptions | deps/plonky2/field/src/fft.rs:68-91 | a forward transform, then swapping and scaling in place, leaves the inverse transform, for every length including one and two |
| FftInterface.IfftOfFft | deps/plonky2/field/src/fft.rs:48-66 | `fft` followed by `ifft` on one buffer leaves it as it was |
| BitReversal.BitRevConcat | deps/plonky2/util/src/lib.rs:106-141 | reversing a two-part index reverses and exchanges the parts, which is what both chunked algorithms rely on |
| BitReversal.BitRevInvolution | deps/plonky2/util/src/lib.rs:106-157 | reversing twice gives the index back, so that each pair is swapped once |
| BitReversal.TableIsBitRev | deps/plonky2/util/src/lib.rs:236-248 | the literal table of 64 entries holds the 6-bit reverses |
| ReverseIndexBits.WrappingReverse | deps/plonky2/util/src/lib.rs:146-157 | the full-width reverse shifted by 64 - b is the b-bit reverse, also for b = 0 where the shift wraps |
| ReverseIndexBits.ReverseIndexBitsInPlaceSmall | deps/plonky2/util/src/lib.rs:106-141 | both branches, by table and by chunks of 64, leave the bit-reversed permutation |
| ReverseIndexBits.ReverseIndexBitsInPlaceChunks | deps/plonky2/util/src/lib.rs:162-180 | chunks are moved to the reverse of their index, as wholes, and nothing else |
| ReverseIndexBits.TransposedAt | deps/plonky2/util/src/lib.rs:211-230 | one transpose, or for an odd number of bits two of interleaved squares, exchanges the outer parts of every index |
| ReverseIndexBits.ThreeSteps | deps/plonky2/util/src/lib.rs:198-232 | moving chunks, transposing, and moving chunks again is the bit reversal of the whole array |
| ReverseIndexBits.Log2Strict | deps/plonky2/util/src/lib.rs:26-33 | the exponent of a power of two |
| ReverseIndexBits.ReverseIndexBitsInPlace | deps/plonky2/util/src/lib.rs:185-234 | index i is permuted to its bit reversal for every power-of-two length and element size, whichever branch is taken |
| ReverseIndexBits.ReverseIndexBitsSmall | deps/plonky2/util/src/lib.rs:72-82 | the copying form for at most 64 elements gives the same permutation |
| ReverseIndexBits.ReverseIndexBitsLarge | deps/plonky2/util/src/lib.rs:84-101 | the copying form for longer arrays gives the same permutation |
| ReverseIndexBits.ReverseIndexBits | deps/plonky2/util/src/lib.rs:53-62 | the copying form agrees with the in-place form for every power-of-two length |
| Transpose.TransposeSwapSquareSmall | deps/plonky2/util/src/transpose_util.rs:38-53 | exactly the cells of the block and of its mirror image are exchanged |
| Transpose.TransposeInPlaceSquareSmall | deps/plonky2/util/src/transpose_util.rs:13-27 | exactly the cells of a block on the diagonal are exchanged with their mirrors |
| Transpose.ExchangeBoth | deps/plonky2/util/src/transpose_util.rs:64-112 | exchanging two disjoint sets of cells one after the other is exchanging their union |
| Transpose.DiagonalParts | deps/plonky2/util/src/transpose_util.rs:97-112 | a block on the diagonal is three disjoint parts, and no cell is missed |
| Transpose.ExchangeQuadrants | deps/plonky2/util/src/transpose_util.rs:64-87 | the four recursive exchanges of a block off the diagonal are the exchange of the whole block |
| Transpose.TransposeSwapSquare | deps/plonky2/util/src/transpose_util.rs:64-87 | the recursion exchanges M[i, j] with M[j, i] for the cells of its block and changes nothing else |
| Transpose.TransposeInPlaceSquare | deps/plonky2/util/src/transpose_util.rs:97-112 | the recursion transposes exactly the square block of the larger array |
| BatchInverse.CumulativeProducts | deps/plonky2/field/src/types.rs:180-187 | the four interleaved chains hold the products of every fourth element up to each index |
| BatchInverse.InverseOfFour | deps/plonky2/field/src/types.rs:190-205 | one inversion gives the inverses of the four chain ends |
| BatchInverse.ReverseStep | deps/plonky2/field/src/types.rs:207-213 | the backward pass turns the inverse of a chain into an inverse of its last element and the inverse of the shorter chain |
| BatchInverse.BatchMultiplicativeInverse | deps/plonky2/field/src/types.rs:134-224 | out[i] * x[i] = 1 for every list of nonzero elements of any length |
| FieldMethods.ExpPowerOf2 | deps/plonky2/field/src/types.rs:360-366 | n squarings give the 2^n-th power |
| FieldMethods.ExpU64 | deps/plonky2/field/src/types.rs:368-379 | square and multiply gives the power, for every 64-bit exponent |
| FieldMethods.ExpBiguint | deps/plonky2/field/src/types.rs:381-388 | the loop over 64-bit digits, highest first, gives the power of the whole number |
| FieldMethods.RootOrder | deps/plonky2/field/src/types.rs:269-273 | the root of unity for 2^t points has order exactly 2^t |
| FieldMethods.PrimitiveRootOfUnity | deps/plonky2/field/src/types.rs:269-273 | the repeated square of the power-of-two generator has the order asked for |
| FieldMethods.ShiftInverts | deps/plonky2/field/src/types.rs:228-263 | p - ((p - 1) >> e) inverts 2^e while 2^e divides p - 1 |
| FieldMethods.Inverse2Exp | deps/plonky2/field/src/types.rs:228-267 | the result inverts 2^exp for every exponent, beyond the two-adicity too |
| SquareRoots.EulerPower | deps/plonky2/field/src/types.rs:457-471 | the power that the residue check computes is one or minus one, so that its panic is not reached |
| SquareRoots.IsQuadraticResidue | deps/plonky2/field/src/types.rs:457-471 | true exactly for zero and for elements whose power is one |
| SquareRoots.Step | deps/plonky2/field/src/types.rs:486-503 | a round of Tonelli-Shanks keeps x^2 = a b and z of order 2^v, with a smaller v |
| SquareRoots.TonelliShanks | deps/plonky2/field/src/types.rs:473-508 | the loop ends, and its result is a root of every residue |
| SquareRoots.Sqrt | deps/plonky2/field/src/types.rs:473-508 | a root is returned exactly when one exists, and its square is the argument |
| NumberTheory.Fermat | deps/plonky2/field/src/goldilocks_field.rs:155-194 | a^(p - 1) = 1 modulo a prime p that does not divide a |
| Goldilocks.IsFieldGL | deps/plonky2/field/src/goldilocks_field.rs:138-143 | the integers modulo 2^64 - 2^32 + 1 satisfy all field laws, given that this is prime |
| Goldilocks.ToCanonicalU64 | deps/plonky2/field/src/goldilocks_field.rs:264-271 | one conditional subtraction gives the canonical representative |
| Goldilocks.Add | deps/plonky2/field/src/goldilocks_field.rs:304-320 | the sum modulo the order for all representatives; the second correction does not overflow |
| Goldilocks.Sub | deps/plonky2/field/src/goldilocks_field.rs:341-357 | the difference modulo the order for all representatives; the second correction does not underflow |
| Goldilocks.Neg | deps/plonky2/field/src/goldilocks_field.rs:290-296 | the negative modulo the order, canonical |
| Goldilocks.AddNoCanonicalize | deps/plonky2/field/src/goldilocks_field.rs:411-442 | the sum modulo the order under the bound that its callers guarantee |
| Goldilocks.Reduce96 | deps/plonky2/field/src/goldilocks_field.rs:447-451 | congruent to the 96-bit number, with the bound of the unchecked addition met |
| Goldilocks.Reduce128 | deps/plonky2/field/src/goldilocks_field.rs:456-469 | congruent to the 128-bit number, with the borrow correction shown safe |
| Goldilocks.Reduce160 | deps/plonky2/field/src/goldilocks_field.rs:483-503 | congruent to every 160-bit number below 2^160 - 2^128 + 2^96 |
| Goldilocks.Mul | deps/plonky2/field/src/goldilocks_field.rs:371-373 | the product modulo the order for all representatives |
| Goldilocks.FromNoncanonicalI64 | deps/plonky2/field/src/goldilocks_field.rs:220-229 | a negative argument wraps to its canonical residue |
| Goldilocks.ExpAcc | deps/plonky2/field/src/goldilocks_field.rs:507-509 | the exponent after n squarings and a multiplication |
| Goldilocks.FermatPower | deps/plonky2/field/src/goldilocks_field.rs:155-194 | the addition chain reaches the exponent P - 2 exactly |
| Goldilocks.PowIsInverse | deps/plonky2/field/src/goldilocks_field.rs:155-194 | that power is the inverse of every nonzero element |
| Goldilocks.TryInverse | deps/plonky2/field/src/goldilocks_field.rs:155-194 | no result exactly for zero in either representation, otherwise the inverse |
| GoldilocksExtensions.U160Times3 | deps/plonky2/field/src/goldilocks_extensions.rs:98-101 | three times the 160-bit number, without overflow of the high word |
| GoldilocksExtensions.U160Times7 | deps/plonky2/field/src/goldilocks_extensions.rs:105-109 | seven times the 160-bit number as 8x - x, with neither overflow nor underflow of the high word |
| GoldilocksExtensions.QuotientMulAt | deps/plonky2/field/src/goldilocks_extensions.rs:153-476 | a coefficient of the product modulo X^D - W, defined by Horner's rule, is the convolution with the wrapped terms multiplied by W |
| GoldilocksExtensions.ProductByCoefficients | deps/plonky2/field/src/goldilocks_extensions.rs:153-476 | coefficients that are congruent to that convolution are the product modulo X^D - W |
| GoldilocksExtensions.Ext2Mul | deps/plonky2/field/src/goldilocks_extensions.rs:116-161 | the product modulo X^2 - 7 for all representatives |
| GoldilocksExtensions.Ext4Mul | deps/plonky2/field/src/goldilocks_extensions.rs:168-293 | the product modulo X^4 - 7 for all representatives |
| GoldilocksExtensions.Ext5AddProds0 | deps/plonky2/field/src/goldilocks_extensions.rs:300-331 | five products, four of them tripled, stay below the bound of the reduction |
| GoldilocksExtensions.Ext5Mul | deps/plonky2/field/src/goldilocks_extensions.rs:300-476 | the product modulo X^5 - 3 for all representatives |
| QuadraticExtensions.ExtIsField | deps/plonky2/field/src/extension/quadratic.rs:86-186 | the extension by a non-residue satisfies all field laws, its inverse included |
| QuadraticExtensions.EmbedEval | deps/plonky2/starky/src/verifier.rs:61-168 | a polynomial over the base field has the same value in the extension |
| Barycentric.BarycentricFormula | deps/plonky2/starky/src/verifier.rs:49-60 | n f(z) = (z^n - 1) sum of y_i x_i / (z - x_i) for every z outside the subgroup |
| OpeningChecks.InterpolantIsUnique | deps/plonky2/starky/src/verifier.rs:61-168 | exactly one polynomial of degree below n takes the column's values on the subgroup |
| OpeningChecks.BarySumFromRows | deps/plonky2/starky/src/verifier.rs:129-166 | the sum in the extension is assembled from two sums in the base field and the inverted norms |
| OpeningChecks.RowSumsSplit | deps/plonky2/starky/src/verifier.rs:129-153 | the sums over neighbouring ranges of rows add up to the sums over both |
| OpeningChecks.PointOutside | deps/plonky2/starky/src/verifier.rs:104-123 | the comparison of components excludes every point of the subgroup, and then no norm is zero |
| OpeningChecks.InvertNorms | deps/plonky2/starky/src/verifier.rs:113-123 | every norm is inverted, for every chunk size |
| OpeningChecks.FoldReduce | deps/plonky2/starky/src/verifier.rs:129-153 | any division of the rows into segments gives the sums over all rows |
| OpeningChecks.EvalColumnsAtPoint | deps/plonky2/starky/src/verifier.rs:61-168 | f(z) in the extension for the interpolant f of every column, for every z inside or outside the subgroup and every division of the fold |
| OpeningChecks.EvalColumnsAtZetaAndNext | deps/plonky2/starky/src/verifier.rs:177-188 | the values of the interpolants at zeta and at the generator times zeta |
| Blake3.LayeredIsRecursive | deps/pearl-blake3/src/merkle.rs:63-75 | pairing layer by layer with an orphan carried up gives the root of BLAKE3's left-balanced recursive tree, section 2.1 of its specification, for every number of chunks |
| Blake3.LayerNode | deps/pearl-blake3/src/merkle.rs:63-75 | node i of layer k is the recursive subtree over the leaves below it |
| Blake3.ProcessSegment | deps/pearl-blake3/src/hasher.rs:144-179 | a segment writes the chaining values of its own chunks, a short last one included, and nothing else |
| Blake3.HashChunks | deps/pearl-blake3/src/hasher.rs:113-127 | all chaining values with their chunk counters, in order |
| Blake3.ChunkBytes | deps/pearl-blake3/src/hasher.rs:144-179 | chunk i is the bytes from 1024 i on, 1024 of them or as many as there are, the short last chunk included |
| Blake3.CounterBinds | deps/pearl-blake3/src/hasher.rs:80-86 | chunks at different places have different chaining values, whatever they hold |
| Blake3.HashBinds | deps/pearl-blake3/src/hasher.rs:73-179 | two inputs with the same keyed hash have the same key and the same bytes, for every length |
| Blake3.CombineLayer | deps/pearl-blake3/src/hasher.rs:130-142 | the layer above, with the odd last node carried up |
| MerkleTrees.NewMerkleTree | deps/pearl-blake3/src/merkle.rs:43-82 | the stored layers are those of the layer-by-layer tree, one chunk and no data included |
| MerkleTrees.RootIsHash | deps/pearl-blake3/src/merkle.rs:89-91 | the root is the keyed BLAKE3 hash of the data |
| MerkleTrees.ComputeRoot | deps/pearl-blake3/src/merkle.rs:228-297 | the walk over all levels, with the siblings consumed in order, gives the root that the recursive definition over levels gives, or none in the same cases |
| MerkleTrees.Verify | deps/pearl-blake3/src/merkle.rs:300-302 | true exactly when that root exists and is the stated one |
| MerkleProofs.GetMultileafProof | deps/pearl-blake3/src/merkle.rs:102-157 | the proof for the set of the asked leaves: zero-padded data, and the siblings of each level in order |
| MerkleProofs.LeafBytes | deps/pearl-blake3/src/merkle.rs:113-124 | each byte of a leaf is that of the data, and zero behind its end |
| MerkleProofs.CollectSiblings | deps/pearl-blake3/src/merkle.rs:126-148 | the siblings collected from the stored layers are those of the levels above the asked leaves |
| MerkleProofs.SanityCheck | deps/pearl-blake3/src/merkle.rs:200-214 | true exactly for the shape that proofs of trees have |
| MerkleProofs.HonestRoot | deps/pearl-blake3/src/merkle.rs:249-297 | from the true nodes of a level and the honest siblings the walk reaches the true root and leaves no sibling over |
| MerkleProofs.RootBinds | deps/pearl-blake3/src/merkle.rs:249-297 | the same root from nodes at the same places means the same nodes and the same siblings |
| MerkleProofs.ProofsBind | deps/pearl-blake3/src/merkle.rs:228-302 | two proofs with the same indices and number of leaves and the same root have the same leaf data and siblings |
| MerkleProofs.AcceptedProofCarriesChunks | deps/pearl-blake3/src/merkle.rs:300-302 | a proof accepted against the root of a tree carries exactly its chunks and siblings |
| MerkleProofs.HonestProofVerifies | deps/pearl-blake3/src/merkle.rs:102-157 | an honest proof verifies exactly when there are two chunks or more and the last one is full or not asked for |
| MerkleProofs.ShortLeafIsRejected | deps/pearl-blake3/src/merkle.rs:113-124 | the zero-padded copy of a short last chunk never verifies |
| MerkleProofs.SingleLeafIsRejected | deps/pearl-blake3/src/merkle.rs:53-61 | a tree of one chunk rejects its own proof |
| MatrixProofs.ComputeLeafIndicesFromRows | deps/pearl-blake3/src/merkle.rs:160-174 | the increasing list of exactly the leaves that share a byte with a row |
| MatrixProofs.CountIsFull | deps/pearl-blake3/src/merkle.rs:305-324 | the bytes counted are as many as asked for exactly when every byte is in a leaf of the proof |
| MatrixProofs.ExtractBytes | deps/pearl-blake3/src/merkle.rs:305-324 | the bytes of the range, read leaf by leaf, or an error exactly when one is missing |
| MatrixProofs.AcceptedBytes | deps/pearl-blake3/src/merkle.rs:305-324 | bytes read out of an accepted proof are the bytes that the tree was built from |
| MatrixProofs.RowIsProven | deps/pearl-blake3/src/merkle.rs:305-324 | every selected row can be read out of any accepted proof for the leaves it needs, and is that row |
| MatrixProofs.RowsAreProven | deps/pearl-blake3/src/merkle.rs:102-324 | for every matrix and list of rows, the honest proof verifies and yields each row exactly when there are two chunks or more and the last one is full or not needed |
| MatrixProofs.BuildPlainProof | src/proof/plain_proof.rs:30-78 | the errors on wrong lengths in their order; otherwise two proofs with exactly the leaves that the rows of A and the columns of B need, each once, in order, with its bytes and the siblings of the tree; they verify and yield those rows exactly when the matrix has two chunks or more and the last one is full or not needed |
| SiblingRanges.ComputeSiblingRanges | deps/pearl-blake3/src/merkle.rs:327-365 | the byte range and chaining value of each sibling, in the order of the proof |
| SiblingRanges.EveryEntryIsRange | deps/pearl-blake3/src/merkle.rs:327-365 | every sibling of an honest proof is listed with the byte range of its leaves |
| SiblingRanges.EveryRangeIsEntry | deps/pearl-blake3/src/merkle.rs:327-365 | every listed range is that of a sibling next to a path |
| SiblingRanges.ComputeCv | deps/pearl-blake3/src/merkle.rs:368-387 | on every range on which the recursion ends: a known range, a leaf of the proof, or the parent of both parts, and an error when a leaf is missing |
| SiblingRanges.AlignedCv | deps/pearl-blake3/src/merkle.rs:368-387 | on whole chunks the recursion ends, whatever ranges are known, and in bytes it is the recursion over leaves with the left-balanced split |
| SiblingRanges.EndsAlone | deps/pearl-blake3/src/merkle.rs:368-387 | with no known ranges, the recursion ends exactly on a positive whole number of chunks |
| SiblingRanges.ShortRangeEnds | deps/pearl-blake3/src/merkle.rs:368-387 | a range that ends in a short chunk: the recursion ends when the short part is among the known ranges, and not when none is |
| SiblingRanges.PathIsRebuilt | deps/pearl-blake3/src/merkle.rs:368-387 | with data for the leaves and right values next to the paths, every node on a path is rebuilt |
| SiblingRanges.HonestPathIsRebuilt | deps/pearl-blake3/src/merkle.rs:327-387 | the proof of a tree and its sibling ranges rebuild the chaining value of every ancestor of a proven leaf |
| TensorHashes.TensorHash.constructor | src/kernels/tensor_hash.rs:57-72 | the scratchpad has room for two buffers of one digest per chunk, for every length up to the largest |
| TensorHashes.TensorHash.MerkleLayerKernel | src/kernels/tensor_hash.rs:167-222 | the kernel writes the next layer, or the flagged root, into the other buffer and nothing else |
| TensorHashes.TensorHash.LaunchLayer | src/kernels/tensor_hash.rs:167-198 | one launch keeps the root of what is left and writes below the scratch bound |
| TensorHashes.TensorHash.LaunchLayers | src/kernels/tensor_hash.rs:162-228 | the loop that swaps its two buffers ends in the root of the leaves, below the scratch bound |
| TensorHashes.TensorHash.Launch | src/kernels/tensor_hash.rs:82-230 | the digest of the GPU is the keyed BLAKE3 hash of the data, for every number of full chunks |
| ConstraintConsumers.ConstraintConsumer.constructor | deps/plonky2/starky/src/constraint_consumer.rs:41-54 | a new consumer has folded nothing |
| ConstraintConsumers.ConstraintConsumer.Constraint | deps/plonky2/starky/src/constraint_consumer.rs:68-73 | each accumulator stays the fold of all constraints emitted so far |
| ConstraintConsumers.ConstraintConsumer.ConstraintTransition | deps/plonky2/starky/src/constraint_consumer.rs:63-65 | the constraint is emitted with the factor that vanishes on the last row |
| ConstraintConsumers.ConstraintConsumer.ConstraintFirstRow | deps/plonky2/starky/src/constraint_consumer.rs:77-79 | the constraint is emitted with the first-row polynomial as a factor |
| ConstraintConsumers.ConstraintConsumer.ConstraintLastRow | deps/plonky2/starky/src/constraint_consumer.rs:83-85 | the constraint is emitted with the last-row polynomial as a factor |
| ConstraintConsumers.FoldedIsPolynomial | deps/plonky2/starky/src/constraint_consumer.rs:68-73 | the accumulator is the polynomial in alpha whose coefficients are the constraints |
| ConstraintConsumers.FoldedBinds | deps/plonky2/starky/src/constraint_consumer.rs:68-73 | constraints that do not all vanish leave an accumulator at zero for fewer values of alpha than there are constraints |
| ConstraintConsumers.FilteredConstraint | deps/plonky2/starky/src/constraint_consumer.rs:63-85 | on a row, a filtered constraint vanishes exactly off its rows or where the constraint does |
| Columns.EvalAllRows | deps/plonky2/starky/src/lookup.rs:404-427 | the column evaluated term by term over the table equals the sum of local and cyclic next-row terms on each row |
| Columns.EvalFilterAllRows | deps/plonky2/starky/src/lookup.rs:133-158 | the same for sums of products and constants of a filter |
| Columns.ConstantOnly | deps/plonky2/starky/src/lookup.rs:371-386 | a column without terms has its constant as value |
| Columns.MoreLocal | deps/plonky2/starky/src/lookup.rs:371-386 | one more term of the current row adds its cell times its factor |
| Columns.MoreNext | deps/plonky2/starky/src/lookup.rs:371-386 | one more term of the next row adds its cell there times its factor |
| Columns.MoreFilter | deps/plonky2/starky/src/lookup.rs:70-84 | one more pair of columns adds the product of their values to a filter, one more column its value |
| HelperColumns.CombineBase | deps/plonky2/starky/src/lookup.rs:567-576 | the fold from the last term on gives the combination, for no term at all as well |
| HelperColumns.CombineNone | deps/plonky2/starky/src/lookup.rs:567-576 | no term leaves gamma |
| HelperColumns.CombineAppend | deps/plonky2/starky/src/lookup.rs:567-576 | one more term after n others adds that term times the n-th power of beta, so that a combination is the sum of term i times beta^i plus gamma |
| HelperColumns.CombineBinds | deps/plonky2/starky/src/lookup.rs:544-576 | two different tuples of n terms have equal combinations for fewer than n values of beta |
| Polynomials.TooManyRoots | deps/plonky2/starky/src/lookup.rs:544-576 | as many different roots as coefficients leave only the zero polynomial |
| HelperColumns.GetHelperCols | deps/plonky2/starky/src/lookup.rs:876-925 | on every row the helper columns are the sums of filter over denominator of each batch of entries, built column by column with batch inversion |
| HelperColumns.ChunkSumsTotal | deps/plonky2/starky/src/lookup.rs:876-925 | batching does not change the total |
| HelperColumns.ChunkSumsAt | deps/plonky2/starky/src/lookup.rs:876-925 | helper k is the sum of the k-th run of neighbouring ratios, each run as long as the constraint degree allows |
| HelperColumns.ConstrainHelperColumns | deps/plonky2/starky/src/lookup.rs:768-797 | the constraints emitted for batches of one and two entries |
| HelperColumns.ConstraintOfTwo | deps/plonky2/starky/src/lookup.rs:781-788 | with nonzero denominators, the constraint of a pair vanishes exactly for the sum of the two ratios |
| HelperColumns.HelperConstraintsHold | deps/plonky2/starky/src/lookup.rs:768-797 | with nonzero denominators, all constraints vanish exactly for the batched sums |
| Lookups.LookupHelperColumns | deps/plonky2/starky/src/lookup.rs:691-764 | the columns built are the batched ratios and the running sum of their differences with the table side |
| Lookups.Telescope | deps/plonky2/starky/src/lookup.rs:746-761 | a column closes its cycle with the given steps exactly when it is their running sum and they sum to zero |
| Lookups.StepsSum | deps/plonky2/starky/src/lookup.rs:691-764 | the steps sum to zero exactly when the sum of filter/(f + x) is the sum of m/(t + x) |
| Lookups.LookupRow | deps/plonky2/starky/src/lookup.rs:940-1000 | on a row, the constraints hold exactly for the batched ratios and a Z that takes the step of the row |
| Lookups.LookupAccepted | deps/plonky2/starky/src/lookup.rs:691-1000 | on all cyclic rows, helper and Z columns are accepted exactly when they are the prover's for the lookup as the verifier reads it, without next-row terms of table and frequencies, and the logUp identity holds for that lookup |
| Lookups.ProverAcceptedIff | deps/plonky2/starky/src/lookup.rs:738-761 | for any table and frequency columns, the columns that the prover builds are accepted exactly when the lookup without next-row terms is balanced and those terms make no difference on any row but the last, as a cross product of cells decides |
| Lookups.NextRowTableIsRejected | deps/plonky2/starky/src/lookup.rs:954-995 | an instance: one row whose next-row cell is its own table; the prover's columns are balanced and rejected |
| PackedLookups.EvalPackedLookups | deps/plonky2/starky/src/lookup.rs:940-1000 | the constraints of all lookups and challenges, each at its own offset |
| PackedLookups.InstancesAt | deps/plonky2/starky/src/lookup.rs:953-998 | the columns lie side by side lookup by lookup, and for each lookup challenge by challenge |
| PackedLookups.AllLookupsAccepted | deps/plonky2/starky/src/lookup.rs:940-1000 | side by side, all columns are accepted exactly when they are the prover's for every lookup as the verifier reads it, and every such lookup is balanced |
| CrossTables.PartialSums | deps/plonky2/starky/src/cross_table_lookup.rs:383-414 | the helper columns are the batched ratios and Z is the upside-down partial sum, for one, two or more entries |
| CrossTables.SuffixSumsIff | deps/plonky2/starky/src/cross_table_lookup.rs:393-412 | the column that starts at the last row and adds each row's total is the only one, and starts with the sum over the table |
| CrossTables.EvalCrossTableLookupChecks | deps/plonky2/starky/src/cross_table_lookup.rs:558-629 | the constraints of every Z, in the three forms for one, two and more entries |
| CrossTables.CtlAcceptedIff | deps/plonky2/starky/src/cross_table_lookup.rs:558-629 | the constraints hold on all rows exactly for the prover's columns, which start with the sum over the table |
| CrossTableVerifier.Replay | deps/plonky2/starky/src/cross_table_lookup.rs:852-898 | taking openings in the order in which they were pushed returns each of them, table by table |
| CrossTableVerifier.VerifyCrossTableLookups | deps/plonky2/starky/src/cross_table_lookup.rs:852-898 | the verdict of all comparisons in order, with the table iterators advanced as read; it names the first that fails |
| CrossTableVerifier.RoundsOfLookup | deps/plonky2/starky/src/cross_table_lookup.rs:861-893 | each lookup is compared once for every challenge, in order, with the extra sum of that lookup and challenge |
| CrossTableVerifier.HonestOpenings | deps/plonky2/starky/src/cross_table_lookup.rs:852-898 | openings in push order are accepted, and consumed to the last, exactly when every comparison balances; otherwise the first unbalanced one is named |
| CrossTableSums.ProcessTable | deps/plonky2/starky/src/cross_table_lookup.rs:1025-1044 | the map locates exactly the rows that the filter selects; a filter value other than 0 and 1 is reported |
| CrossTableSums.CheckLocations | deps/plonky2/starky/src/cross_table_lookup.rs:1046-1062 | the counts agree in both directions |
| CrossTableSums.CheckCtl | deps/plonky2/starky/src/cross_table_lookup.rs:979-1023 | passes exactly when filters are binary and the multisets of looking rows with extras and of looked rows are equal |
| CrossTableSums.InverseSumOfMultiset | deps/plonky2/starky/src/cross_table_lookup.rs:979-1023 | equal multisets have equal sums of inverted combinations |
| CrossTableSums.TotalOfOne | deps/plonky2/starky/src/cross_table_lookup.rs:383-414 | with a binary filter, the total of an entry over its table is the sum of the inverted combinations of the selected rows |
| CrossTableData.GroupsAreUnique | deps/plonky2/starky/src/cross_table_lookup.rs:343-368 | grouping adjacent entries of the same table gives the tables that the verifier counts exactly when the entries of each table are neighbours |
| CrossTableData.GroupIsComplete | deps/plonky2/starky/src/cross_table_lookup.rs:343-368 | each group then holds all entries of its table |
| CrossTableData.CrossTableLookupData | deps/plonky2/starky/src/cross_table_lookup.rs:270-339 | per table, the Z data in push order: each built from its entries by partial sums |
| CrossTableProofs.DeclaredIsComputed | deps/plonky2/starky/src/cross_table_lookup.rs:298-325 | the columns recorded for a Z are those it was computed from when entries of a table are neighbours |
| CrossTableProofs.BuiltIffAccepted | deps/plonky2/starky/src/cross_table_lookup.rs:558-629 | columns meet the row constraints exactly when they are the prover's |
| CrossTableProofs.CrossTableVerdict | deps/plonky2/starky/src/cross_table_lookup.rs:852-898 | for the prover's columns of lists whose entries of a table are neighbours, the verdict is the first comparison whose sums over whole tables differ, or acceptance with every opening consumed in push order |
| CrossTableProofs.GroupsTotal | deps/plonky2/starky/src/cross_table_lookup.rs:852-898 | the totals of the groups add up to the inverses of all selected looking rows |
| CrossTableProofs.ConsistentIsBalanced | deps/plonky2/starky/src/cross_table_lookup.rs:852-898 | traces that pass the multiset check balance every comparison |
| CrossTableProofs.CrossTableComplete | deps/plonky2/starky/src/cross_table_lookup.rs:270-898 | if every lookup passes the multiset check, and the extra sums given for a lookup and a challenge are those of its extra rows, the verifier accepts the prover's first-row openings and consumes all of them |
| CrossTableVerdicts.VerdictIff | deps/plonky2/starky/src/cross_table_lookup.rs:270-898 | for the prover's columns of any looking lists, the verifier accepts with every opening consumed exactly when the entries of each table are neighbours in every list and every comparison balances |
| CrossTableVerdicts.GroupsCount | deps/plonky2/starky/src/cross_table_lookup.rs:343-368 | there are as many groups as tables exactly when the entries of each table are neighbours, and otherwise more |
| CrossTableVerdicts.RoundsCount | deps/plonky2/starky/src/cross_table_lookup.rs:852-898 | an accepting run takes exactly one opening for each looking table and each looked table of every comparison |
| CrossTableVerdicts.LeftOver | deps/plonky2/starky/src/cross_table_lookup.rs:852-898 | when the entries of a table are not neighbours, no verdict is acceptance with every opening consumed |
| CrossTableVerdicts.MiddleEntry | deps/plonky2/starky/src/cross_table_lookup.rs:343-368 | entries of tables 0, 1, 0: three openings are pushed for the looking side and two are taken |
| CrossTableVerdicts.VerdictOfMeeting | deps/plonky2/starky/src/cross_table_lookup.rs:558-898 | for columns of any origin that meet the verifier's constraints on all rows, the verdict is the first comparison whose sums over whole tables differ, or acceptance with every opening consumed |
| PeriodicPatterns.FromBytes | deps/zk-pow/src/api/proof_utils.rs:76-109 | the error on a wrong length, otherwise what decoding dimension by dimension gives: a shape or the first error in the order of the source |
| PeriodicPatterns.DecodedDims | deps/zk-pow/src/api/proof_utils.rs:89-106 | dimension i of an accepted pattern has its second byte plus one as length and its first byte plus one, times the period inside it, as stride |
| PeriodicPatterns.ErrorsOfBytes | deps/zk-pow/src/api/proof_utils.rs:89-106 | each error on six bytes and exactly the bytes that get it: the first dimension that is refused, with the condition on its two bytes and the period inside it |
| PeriodicPatterns.ToBytes | deps/zk-pow/src/api/proof_utils.rs:112-124 | the bytes of the factors, or none where the source panics |
| PeriodicPatterns.EncodeOfDecoded | deps/zk-pow/src/api/proof_utils.rs:76-124 | encoding what the decoder accepts gives the same bytes back, and the shape is canonical |
| PeriodicPatterns.DecodeOfEncoded | deps/zk-pow/src/api/proof_utils.rs:76-124 | every canonical shape has bytes and is decoded from them |
| PeriodicPatterns.ValidIsCanonical | deps/zk-pow/src/api/proof_utils.rs:203-208 | `is_valid`, which encodes and decodes, holds exactly for canonical shapes |
| PeriodicPatterns.ToList | deps/zk-pow/src/api/proof_utils.rs:127-139 | for every shape, the list built dimension by dimension in 32-bit words, which wrap around; for canonical shapes the exact list |
| PeriodicPatterns.RepeatedHas | deps/zk-pow/src/api/proof_utils.rs:127-139 | the elements of one more dimension are those inside it plus any of its multiples of the stride |
| PeriodicPatterns.ListIsIncreasing | deps/zk-pow/src/api/proof_utils.rs:127-139 | the list is strictly increasing from zero, below the period, with size-many elements |
| PeriodicPatterns.SizeIsListLength | deps/zk-pow/src/api/proof_utils.rs:211-219 | the size is the length of the list and at most the period |
| PeriodicPatterns.OffsetIsValid | deps/zk-pow/src/api/proof_utils.rs:192-200 | for every shape, the answer of the loop with its early exit, or none where it divides by zero; for canonical shapes the validity of the offset |
| PeriodicPatterns.OutcomeOfCanonical | deps/zk-pow/src/api/proof_utils.rs:192-200 | on canonical shapes nothing wraps around and no division is by zero |
| PeriodicPatterns.CoveringCovers | deps/zk-pow/src/api/proof_utils.rs:192-200 | every x is covered by a valid offset |
| PeriodicPatterns.CoveringIsUnique | deps/zk-pow/src/api/proof_utils.rs:192-200 | a valid offset and an element of the list are determined by their sum |
| PeriodicPatterns.Tiling | deps/zk-pow/src/api/proof_utils.rs:192-200 | every natural number is the sum of a valid offset and a list element in exactly one way |
| PatternLists.FromList | deps/zk-pow/src/api/proof_utils.rs:146-189 | the factoring of a list by smallest periods, with the errors and the panic in their order and the 32-bit wrap-around of the additions |
| PatternLists.ErrorsOfList | deps/zk-pow/src/api/proof_utils.rs:146-189 | each error of from_list and exactly the lists that get it: empty, not ascending, not from zero, not periodic, a panic on more than three dimensions or a period of zero, not canonical |
| PatternLists.FactoredFails | deps/zk-pow/src/api/proof_utils.rs:159-174 | a list is not periodic exactly when taking its shortest repeated prefix again and again leads to a list of several elements that is not made of copies |
| PatternLists.ListOfListed | deps/zk-pow/src/api/proof_utils.rs:146-189 | a list that is accepted is the list of its pattern, and the pattern is canonical |
| PatternLists.NoShorterPeriod | deps/zk-pow/src/api/proof_utils.rs:159-174 | the smallest period of the list of a pattern is its true outermost dimension |
| PatternLists.ListedListOf | deps/zk-pow/src/api/proof_utils.rs:146-189 | every canonical pattern comes back from its own list |
| PatternLists.ListsArePatterns | deps/zk-pow/src/api/proof_utils.rs:127-189 | `from_list` and `to_list` are inverse bijections between accepted lists and canonical patterns |
| Difficulty.TargetValue | src/gateway/block.rs:139-161 | the bytes that are written encode the compact target, sign bit and exponent below three included |
| Difficulty.BitsToTarget | src/gateway/block.rs:139-161 | the big-endian target for every 32-bit encoding |
| Difficulty.TargetBeToLe | src/gateway/block.rs:165-169 | the bytes in reverse order |
| Difficulty.MulU256U128 | src/gateway/mining_job.rs:210-248 | for every 128-bit factor, the value or the overflow of the sum of the byte products, carry by carry |
| Difficulty.OutcomeOfProducts | src/gateway/mining_job.rs:210-248 | the same outcomes for every 128-bit factor, against the sum of the byte products as the 128-bit multiplication leaves them |
| Difficulty.ProductsAreExact | src/gateway/mining_job.rs:210-248 | that sum is the product exactly when no byte product wraps around; factors below 2^120 never do |
| Difficulty.OutcomeOfProduct | src/gateway/mining_job.rs:210-248 | when no byte product wraps around: exact below 2^256, overflow reported from there to 2^264, beyond that an overflow or the product without multiples of 2^264, and always an overflow when that remainder is 2^256 or more |
| Difficulty.BoundSaturates | deps/zk-pow/src/api/sanity_checks.rs:90-106 | for a factor that is not zero, the bound is the product, or 2^256 - 1 when that is larger |
| Difficulty.NbitsScale | deps/zk-pow/src/api/proof_utils.rs:25-53 | the compact encoding: zero with the sign bit or a zero exponent, the mantissa at exponent 3, multiplied by 256 modulo 2^256 for each further step of the exponent and divided by 256 below |
| Difficulty.VerifierFactorWraps | deps/zk-pow/src/api/sanity_checks.rs:90-96 | the verifier's factor, multiplied in 64-bit words, is the true factor modulo 2^64 |
| Difficulty.BoundOfJob | deps/zk-pow/src/api/sanity_checks.rs:90-106 | the verifier's bound for a configuration: none when its 64-bit factor is zero, otherwise the saturated product |
| Difficulty.TargetsAgreeIff | deps/zk-pow/src/api/proof_utils.rs:25-53 | the encodings for which miner and verifier decode the same target, exactly |
| Difficulty.MinerMatchesVerifier | deps/zk-pow/src/api/sanity_checks.rs:90-106 | for encodings on which the targets agree and one and the same factor below 2^120, the miner's result is the saturated product exactly when the product is below 2^256 |
| Difficulty.ExactMatches | deps/zk-pow/src/api/sanity_checks.rs:90-106 | for a factor below 2^64 and agreeing targets, miner and verifier match exactly when the factor is not zero and the product is below 2^256 |
| Difficulty.WrappedMatches | deps/zk-pow/src/api/sanity_checks.rs:90-106 | for every configuration for which the miner reports no error, a match exactly when the wrapped factor is not zero, its product is below 2^256 and is the true product modulo 2^264 |
| Difficulty.WrappedBelow | deps/zk-pow/src/api/sanity_checks.rs:90-106 | below 2^264, a factor that wraps around matches only for a target of zero |
| Difficulty.DisagreementNeverMatches | deps/zk-pow/src/api/sanity_checks.rs:90-106 | encodings whose targets disagree never match while the miner's product is below 2^264 |
| Difficulty.SaneFactor | deps/zk-pow/src/api/sanity_checks.rs:12-63 | configurations that pass the verifier's checks have a factor from 1 to 2^44, so that its products never wrap around |
| Difficulty.SaneMatches | deps/zk-pow/src/api/sanity_checks.rs:12-106 | for such configurations and agreeing targets, a match exactly when the product is below 2^256 |
| Difficulty.FactorWrapsToZero | deps/zk-pow/src/api/sanity_checks.rs:90-106 | a canonical configuration with factor 2^64: the miner derives 2^64 as its target, and the verifier divides by zero |
| Difficulty.SilentOverflow | src/gateway/mining_job.rs:210-248 | an encoding and a factor for which the miner's target is zero without an error while the verifier accepts every hash |
| Difficulty.DotProductLength | deps/zk-pow/src/api/proof_utils.rs:383-387 | the largest multiple of the rank up to the common dimension |
| Difficulty.FactorBound | src/gateway/mining_job.rs:95-103 | the factor of a valid configuration stays below 2^80, so that its checked products never fail |
| Difficulty.DeriveTarget | src/gateway/mining_job.rs:95-106 | the derived little-endian target has the outcome of the product; it is the bound that the verifier computes in 64-bit words whenever no word wraps around, the targets agree and the product is below 2^256 |
| MinerBuffers.SlotsDiffer | src/miner_bufs.rs:495-497 | iterations less than a ring apart have different slots |
| MinerBuffers.MinerBufs.constructor | src/miner_bufs.rs:307-491 | an idle stream, no job and no reported hit; the invariant holds that a cached job is held by device and host once the stream is drained |
| MinerBuffers.MinerBufs.EnsureForJob | src/miner_bufs.rs:514-561 | on an idle stream, once it is drained again B and its host copy are those of the seed, for a new header and for the cached one, and no slot has changed |
| MinerBuffers.MinerBufs.MineOneWithGraphs | src/miner_bufs.rs:955-967 | with nothing in flight on the slot, once the stream is drained the slot holds the matrix of the iteration, its header reports that matrix and the job exactly when the search finds something, and every other slot is as it would have been |
| MinerBuffers.MinerBufs.SnapshotAForHit | src/miner_bufs.rs:873-887 | once the stream is drained the snapshot is the matrix that the slot has after all earlier requests, and nothing else differs |
| MinerBuffers.MinerBufs.Execute | src/miner_bufs.rs:592-862 | whatever the device executes, the buffers at the end of the stream stay the same |
| MinerBuffers.MinerBufs.Progress | src/bin/live_miner.rs:421-444 | any number of device operations keeps what callers will see; snapshots change only snapshots |
| MinerBuffers.MinerBufs.Synchronize | src/bin/live_miner.rs:427-445 | after a synchronization the buffers are what the requests announced |
| MinerBuffers.SettledAppend | src/miner_bufs.rs:514-967 | a request that joins the stream takes effect on the drained buffers |
| MinerBuffers.LaunchedSettles | src/miner_bufs.rs:955-967 | zeroing the header at once and enqueuing the graph is, with nothing in flight on the slot, the same as doing both in order |
| MiningLoops.MiningLoop.LookAtTemplate | src/bin/live_miner.rs:346-408 | a new tip replaces the job by one with the B of its own seed; otherwise nothing changes |
| MiningLoops.MiningLoop.LaunchBatch | src/bin/live_miner.rs:419-427 | after the synchronization every slot of the ring holds the matrix and the report of its own iteration, at any pace of the device |
| MiningLoops.MiningLoop.ScanBatch | src/bin/live_miner.rs:429-445 | exactly the iterations that found something are listed in order, and each snapshot is the matrix of its iteration |
| MiningLoops.MiningLoop.Batch | src/bin/live_miner.rs:419-458 | one message for every iteration of the batch that found something, in order, with the job, the A of that iteration and the report on it |
| MiningLoops.MiningLoop.Run | src/bin/live_miner.rs:345-488 | over any sequence of templates and any pace of the device: every pass with a job mines one ring of iterations, and the loop ends early only when a limit is set and reached, after the first batch that reaches it; every iteration that found something is sent exactly once and in order, with the template followed in its pass and the A and B of one seed |
| MiningLoops.IterAfterCounts | src/bin/live_miner.rs:419-426 | the iterations mined are the ring size times the number of passes with a job |
| MiningLoops.MiningLoop.Pass | src/bin/live_miner.rs:345-458 | one pass follows the template it reads, mines one ring if there is a job, and sends the hits of exactly that ring with that template |
| MiningWorkers.HostKeeps | src/bin/live_miner.rs:345-488 | every step of the worker loop keeps the invariant on slots, stream, hits and histories |
| MiningWorkers.DeviceKeeps | src/bin/live_miner.rs:421-445 | so does every operation that the device executes in between |
| MiningWorkers.AdoptedIs | src/bin/live_miner.rs:351-355 | following each template whose tip differs from the one held ends in the first template since the last change of the tip |
| MiningRuns.StepHolds | src/bin/live_miner.rs:319-581 | every step of any thread keeps the invariant of the whole system; a polled template replaces the one in the cell exactly when its tip is another, and no other step touches the cell |
| MiningRuns.ReachedHolds | src/bin/live_miner.rs:501-581 | every state that a run reaches satisfies it |
| MiningRuns.CellFollowsTip | src/bin/live_miner.rs:557-571 | in every run the cell holds the first template polled since the tip last changed, so that its tip is the one polled last |
| MiningRuns.JobFollowsTip | src/bin/live_miner.rs:345-408 | in every run the job of a running worker, or the one that it loads, is the first template that it read since the tip last changed in what it read |
| MiningRuns.NewTipIsLoaded | src/bin/live_miner.rs:351-379 | a worker that reads another tip than its own goes to loading exactly that template |
| MiningRuns.StopsAtLimit | src/bin/live_miner.rs:464-474 | a worker stops only on a failure or when a limit is set and reached, and begins no batch but the first once it is reached |
| MiningRuns.HitsAreRight | src/bin/live_miner.rs:421-457 | every sent hit pairs a job with the A generated from its seed at the iteration whose header reported the hit and with the B those kernels read |
| MiningRuns.HitsAreDeliveredOnce | src/bin/live_miner.rs:66-113 | what was sent is what was received and what is still in the channel, in order; a worker sends each hit once, in the order found, and owes none between batches |
| MiningRuns.InFlightIsUntouched | src/bin/live_miner.rs:419-448 | when a slot is about to be reused no operation on it is pending, and when a fill runs no hit waits for its snapshot |
| MiningRuns.WorkersGoOn | src/bin/live_miner.rs:319-495 | the unwraps of the loop do not fail, and a worker that has not stopped can take a step or waits for the device |
| MiningRuns.NothingIsMinedTwice | src/bin/live_miner.rs:366-426 | no seed and iteration is mined twice in any run, by two workers or by one, exactly when the listed devices are distinct |
| MiningRuns.DuplicateRun | src/bin/live_miner.rs:366-376 | a run in which two workers on a device listed twice mine the same seed and iteration |

## Left out

- Fft.FftClassicSimd: only the scalar path (width 1); the packed loop under `interleave` and the SIMD types are not modelled.
- Goldilocks.IsFieldGL: primality of 2^64 - 2^32 + 1 is a precondition, and so is, for every field, the order of its power-of-two generator (`FieldMethods.Valid`).
- BatchInverse.BatchMultiplicativeInverse: a zero element panics in the source and is a precondition here, as are the other panics of the transforms (length not a power of two, table of the wrong length, no subgroup of that order).
- Goldilocks.AddNoCanonicalize: inline assembly and the branch hints are not modelled, only the portable form.
- OpeningChecks.FoldReduce: the parallel fold is a tree that divides the rows into neighbouring segments; scheduling is not modelled otherwise.
- MerkleTrees.ComputeRoot: a proof for a single leaf without leaf 0 panics in the source and is excluded by the precondition; numbers of leaves and levels are unbounded.
- MerkleProofs.GetMultileafProof: an empty list or an index out of range panics in the source and is excluded by the precondition.
- MerkleProofs.ProofsBind: digests are free terms, so that collisions of BLAKE3 do not exist; the compression function is not modelled.
- MatrixProofs.ExtractBytes: the result is described for proofs of the shape that the sanity check asks for.
- TensorHashes.TensorHash.Launch: kernels are the functions that their comments state, run to completion one after the other; the driver calls are not modelled.
- SiblingRanges.ComputeCv: ranges on which the recursion of the source never ends are excluded, by the condition that `SiblingRanges.EndsAlone` spells out when no range is known.
- Lookups.LookupAccepted: denominators that are zero are excluded, as the inversion panics on them.
- HelperColumns.ConstrainHelperColumns: batches of one or two entries, as the source leaves other degrees to do.
- PackedLookups.EvalPackedLookups: constraints are evaluated on rows of the trace, where the row filters are those of Lagrange polynomials; evaluation at a point outside, FRI and the probability of a lucky challenge are not modelled.
- CrossTableVerifier.VerifyCrossTableLookups: the final debug assertion is the positions in the verdict; the slicing of a proof's openings by `from_proof` is not modelled.
- CrossTableProofs.CrossTableComplete: the other direction, from equal sums for random challenges to equal multisets, is probabilistic.
- Difficulty.MulU256U128: for factors of 2^120 and more, byte products wrap around as in a release build.
- Difficulty.DeriveTarget: a rank of zero panics in the source and is excluded; patterns are canonical, as both ways to build them guarantee.
- Difficulty.OutcomeOfProduct: from 2^264 on, when the remainder is below 2^256, either outcome is possible; which one depends on the carries.
- PeriodicPatterns.ToList: sums and products of 32-bit words wrap around as in a release build.
- Difficulty.BitsToTarget: exponents above 32 are modelled with the wrap-around of a release build.
- MinerBuffers.MinerBufs.MineOneWithGraphs: the kernels of one iteration are two operations, fill and search, in the order of the captured graph; the calls that must not meet a pending operation of their slot have that as a precondition, which the loop meets.
- MiningLoops.MiningLoop.Run: what a search finds is a function of the iteration; driver errors, which end the loop, and the pauses while there is no template are not part of it.
- MiningRuns.HitsAreDeliveredOnce: sending never fails, since the receiver lives as long as the process; what the poller does with a hit is not modelled.
- MiningRuns.WorkersGoOn: driver errors end a worker, as a step that may come at any time; fairness and time are not modelled.
- The circuit twins of the checks and the packed evaluation of constraints: the same formulas over other types.
- RPC client, logging, environment parsing, block and coinbase serialization, secp256k1: input and output, or thin wrappers.
