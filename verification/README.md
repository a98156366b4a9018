# Verification of the VortexSTARK host code

VortexSTARK proves and verifies statements with Circle STARKs over the Mersenne field
M31 (P = 2^31 - 1). Its heavy arithmetic runs on a GPU; the protocol, the field and
circle algebra, the Merkle openings and the proof formats are host code. This project
models that host code and proves what it is relied on for.

The field is built up from the machine arithmetic. The generator of the circle group
has order 2^31, from which P is prime, Fermat's theorem, and that the tower
M31 < CM31 < QM31 consists of fields; no arithmetic fact is taken on trust.

What is modelled, and the main result about it:

- **Field and circle** (`M31Field`, `MersennePrime`, `SecureField`, `SecureInverse`,
  `CircleGroup`, `CircleOrder`, `CircleDomain`, `CanonicOrder`): inverses are correct,
  every circle point is a power of the generator, vanishing values are zero exactly on
  their coset, index permutations are mutual inverses and geometric.
- **Line polynomials and FRI** (`LinePoly`, `LineIfft`, `LastLayer`, `LastLayerInPlace`,
  `FriFold`, `FriRuns`, `CircleFolding`, `FirstFold`): interpolation and evaluation undo
  each other; line folds keep the meaning of the values and halve the degree, and so does
  the circle fold over the canonic domain; over the half coset it does so for exactly the
  polynomials that are even in x.
- **Merkle openings** (`Hashing`, `MerkleTree`, `MerkleTiles`, `MerkleHeap`,
  `SortedSets`, `HashWitness`, `HashReconstruct`, `WitnessRoundTrip`, `FriOpening`,
  `StwoExport`, `ExportBinding`): tiled and heap extraction equal the plain tree; compressed
  openings reconstruct the root and consume the stream exactly; accepted openings and
  accepted exports bind the opened values.
- **Protocol** (`FiatShamir`, `Transcripts`, `StarkProof`, `StarkVerifier`, `Acceptance`,
  `StarkProver`, `HonestRuns`): the exact set of accepted proofs, what acceptance says about
  the opened values, what each challenge depends on, acceptance of every honest run, and
  what the layers of a run hold.
- **Fast forms** (`OodsFold`, `OodsPoints`, `BatchInverse`, `TwiddleCache`,
  `Fibonacci`, `Poseidon2`, `PoseidonAir`): each equals its simple form.
- **Formats** (`ProofCodec`, `ProofFiles`, `Felt252`): both codecs round-trip.

Conventions. The hash is any function from bytes to eight words, given as a parameter;
where the source uses two entry points (blocks of at most 64 bytes, and any length) there
are two parameters. Ordered maps and sets are Dafny maps and sets whose keys are listed
ascending. Shifts are repeated doubling and halving. Results about challenges assume that
the rejection sampling of `draw_felt` ends (`FiatShamir.Sampling`), since its loop has no
bound of its own. Rust panics on malformed input are error results in the verifier and in
the readers; the preconditions of the exporters are what their indexing demands.

Where comments and code disagree, the code is modelled:

- `src/oods.rs:101-102` says nonzero inputs are inverted even next to zeros. One zero makes
  every output zero (`BatchInverse.NonzeroEntriesInvertedIff`, `BatchInverse.OneBesideZero`).
- `src/oods.rs:416` says `circle_vanishing_poly_at` vanishes on half of the trace points
  only. It vanishes on the whole half coset (`CircleDomain.CircleVanishingExactlyOnHalfCoset`).
- `src/verifier.rs:8` lists a low-degree check of the final layer. `verify` compares opened
  values with that layer and makes no degree check: an accepted honest run exceeds the bound
  (`HonestRuns.HighDegreeAccepted`), and honest runs meet a bound exactly when the fold of
  their first line layer does (`HonestRuns.LastLayerDegreeIff`).
- `src/fri.rs:226-231` says the first fold turns a circle evaluation into a line evaluation.
  With the half coset that prover and verifier of the Fibonacci proof use, the folded pairs
  are antipodal, not conjugate: the result is 2 (f00 + alpha f10) at 2x^2 - 1 only for
  polynomials even in x (`FirstFold.FoldsCleanlyIff`, `FirstFold.XDoesNotFold`), and that
  point is not the one the next fold assumes (`FirstFold.PairXOffLineDomain`). The Cairo
  prover folds conjugate pairs, where it holds for all (`FirstFold.CanonicFoldMeaning`).

## Model

| member | source | states |
|---|---|---|
| M31Field.ReduceExact | src/field/m31.rs:24-29 | On values below 2^62 the fold-and-subtract reduction is the residue modulo 2^31 - 1 exactly for all but the largest. |
| M31Field.ProductFits | src/field/m31.rs:110-112 | Every product of two field elements is below that largest value. |
| M31Field.MulIsMod | src/field/m31.rs:110-112 | Multiplication of canonical elements is multiplication modulo P. |
| M31Field.RedHom | src/field/m31.rs:86-120 | Reduction modulo P carries integer sums, differences, products, negatives and doubles to the field operations. |
| M31Field.PowLoop | src/field/m31.rs:38-49 | The square-and-multiply loop returns the power function for every exponent. |
| M31Field.PowMul | src/field/m31.rs:38-49 | Powers of powers multiply exponents, for the bit-by-bit power function. |
| MersennePrime.ModulusIsPrime | src/field/m31.rs:6 | P has no divisor other than 1 and P, derived from the order of the circle generator. |
| MersennePrime.NoZeroDivisors | src/field/m31.rs:110-112 | A product is zero only if a factor is. |
| MersennePrime.Fermat | src/field/m31.rs:33-34 | a^(P-1) = 1 for every nonzero a. |
| MersennePrime.InverseCorrect | src/field/m31.rs:32-35 | The power P - 2 is the inverse of every nonzero element and maps 0 to 0. |
| SecureField.CMulAssoc | src/field/cm31.rs:80-85 | Complex multiplication over M31 is associative (it is the circle group operation). |
| SecureField.QMulAssoc | src/field/qm31.rs:117-131 | The four-term product of the secure field is associative. |
| SecureField.QMulDistrib | src/field/qm31.rs:117-131 | It distributes over sums and differences on both sides. |
| SecureField.QScaleLaws | src/field/qm31.rs:134-142 | Scaling by base-field elements is linear and commutes with products. |
| SecureField.TowerGenerators | src/field/qm31.rs:1-20 | The generators of the tower: i^2 = -1 and u^2 = 2 + i. |
| SecureInverse.MinusOneIsNoSquare | src/field/cm31.rs:38-51 | -1 is not a square in M31, so the norm a^2 + b^2 vanishes only at zero. |
| SecureInverse.FiveIsNoSquare | src/field/qm31.rs:65-76 | 5, the norm of 2 + i, is not a square in M31. |
| SecureInverse.NormOfProduct | src/field/cm31.rs:39-41 | The CM31 norm is multiplicative. |
| SecureInverse.CInverseCorrect | src/field/cm31.rs:44-51 | CM31::inverse inverts every nonzero element and maps zero to zero. |
| SecureInverse.QNormZero | src/field/qm31.rs:67-76 | The QM31 norm is zero only at zero. |
| SecureInverse.QInverseCorrect | src/field/qm31.rs:79-88 | QM31::inverse inverts every nonzero element on both sides and maps zero to zero. |
| SecureInverse.QNoZeroDivisors | src/field/qm31.rs:117-131 | QM31 has no zero divisors. |
| CircleGroup.PMulAssoc | src/circle.rs:31-38 | The circle operation is associative. |
| CircleGroup.ConjugateInverse | src/circle.rs:40-47 | The conjugate of a point on the circle is its group inverse. |
| CircleGroup.OnCircleClosed | src/circle.rs:31-38 | Products of circle points lie on the circle. |
| CircleGroup.DoubleXCorrect | src/circle.rs:231-236 | The x-coordinate of a doubled circle point is 2x^2 - 1. |
| CircleGroup.RepeatedDouble | src/circle.rs:57-63 | n doublings give the power 2^n. |
| CircleGroup.MulScalar | src/circle.rs:66-77 | Double-and-add returns the scalar power. |
| CircleGroup.GeneratorHalfTurn | src/circle.rs:24-29 | Thirty doublings of the generator give (-1, 0). |
| CircleOrder.GenOrder | src/circle.rs:24-29 | A power of the generator is the identity exactly when the exponent is a multiple of 2^31. |
| CircleOrder.GenInjective | src/circle.rs:24-29 | Two powers of the generator agree exactly when the exponents agree modulo 2^31. |
| CircleOrder.GenAntipode | src/circle.rs:79-86 | Half a turn further is the antipodal point. |
| CircleDomain.EveryPointIsAPower | src/circle.rs:10-29 | Every point of the circle over M31 is a power of the generator. |
| CircleDomain.GenXZero | src/circle.rs:10-29 | The x-coordinate of a power vanishes exactly a quarter turn from the axis. |
| CircleDomain.HalfCosetAt | src/circle.rs:113-122 | Point k of half_coset(L) is the power (1 + 2k) 2^(30-L). |
| CircleDomain.HalfOddsAt | src/circle.rs:132-143 | Point i of half_odds(L), L <= 29, is the power (1 + 4i) 2^(29-L). |
| CircleDomain.AllPoints | src/circle.rs:258-267 | Repeated multiplication by the step lists the points `at(0)`, `at(1)`, ... |
| CircleDomain.CosetVanishingAt | src/circle.rs:241-254 | The loop returns the iterated doubling of the x-coordinate of the rotated point. |
| CircleDomain.VanishesExactlyOnCoset | src/circle.rs:238-254 | That value is zero at a circle point exactly when the coset contains the point, for every coset of size 2^1 to 2^30. |
| CircleDomain.CosetVanishingValue | src/circle.rs:238-254 | At G^e, for a coset that starts at G^a, the value is the x-coordinate of a stated power of G. |
| CircleDomain.HalfCosetNeedsNoRotation | src/circle.rs:241-254 | For a half coset the rotation is the identity. |
| CircleDomain.CircleVanishingPolyAt | src/circle.rs:230-236 | The loop returns the iterated doubling plus one. |
| CircleDomain.CircleVanishingExactlyOnHalfCoset | src/circle.rs:228-236 | That polynomial is zero at a circle point exactly when the point is in the half coset. |
| Bits.BitReverse | src/verifier.rs:17-25 | The shift loop reverses the low bits. |
| Bits.BitRevInvolution | src/verifier.rs:17-25 | Reversing the bits of an index twice gives the index. |
| Bits.WordReverseShifted | src/circle.rs:200 | reverse_bits followed by the shift by the word size minus n is the n-bit reversal. |
| CanonicOrder.ToCanonicBijective | src/circle.rs:198 | The index map k/2 or n-1-k/2 is a bijection below n with a stated inverse. |
| CanonicOrder.CanonicBrtBijective | src/circle.rs:222-226 | Followed by bit reversal it is a bijection on [0, 2^n). |
| CanonicOrder.PermuteHcNaturalToCanonicBrt | src/circle.rs:192-204 | The scatter loop writes exactly the permuted sequence. |
| CanonicOrder.PermuteCanonicBrtToHcNatural | src/circle.rs:207-218 | The gather loop writes exactly the inverse permutation. |
| CanonicOrder.PermuteHalfCosetToCanonic | src/circle.rs:154-165 | The bit-reversed variant of the scatter writes exactly its permutation. |
| CanonicOrder.PermutationsAreInverse | src/circle.rs:188-218 | The two permutations undo each other in both orders. |
| CanonicOrder.CanonicOrderIsGeometric | src/ntt.rs:879-885 | Point k of the half coset is the canonic-domain point the index map sends k to. |
| CanonicOrder.CanonicNextInRange | src/cairo_air/prover.rs:157-166 | canonic_next stays below the domain size. |
| CanonicOrder.CanonicNextAdvancesOneTraceStep | src/cairo_air/prover.rs:157-166 | The point at canonic_next(q) is the point at q times one step of the trace domain. |
| LinePoly.LineEvalIsBasisSum | src/fri.rs:370-375 | Splitting by index parity evaluates the sum over the basis 1, x, 2x^2-1, x(2x^2-1), ... |
| LinePoly.FoldEvalIsLineEval | src/fri.rs:394-406 | The recursive fold over bit-reversed coefficients and doublings evaluates the same polynomial. |
| LineIfft.DomainXDouble | src/fri.rs:304-321 | Doubling the x-coordinate of a domain point lands on the domain of half the size. |
| LineIfft.DomainXNonzero | src/fri.rs:312 | No x-coordinate of a half-odds domain (L <= 29) is zero, so every butterfly divisor has an inverse. |
| LineIfft.EvalOfIfft | src/fri.rs:304-327 | The inverse transform of any values, evaluated back, gives the values times the size. |
| LineIfft.IfftOfValues | src/fri.rs:304-327 | The inverse transform of the values of a polynomial gives its coefficients times the size, bit-reversed. |
| LastLayer.EvaluateThenInterpolate | src/fri.rs:294-366 | Interpolating the bit-reversed values of a polynomial returns its coefficients, for every size 2 to 2^29. |
| LastLayer.InterpolateThenEvaluate | src/fri.rs:294-407 | Evaluating the untruncated coefficients at bit-reversed index j returns value j, for every j and every size. |
| LastLayer.TruncationExactIff | src/fri.rs:333-334 | Eight coefficients reproduce every value exactly when all coefficients from index 8 on are zero. |
| LastLayer.BitReverseInPlace | src/fri.rs:268-284 | The swap loop leaves the array bit-reversed. |
| LastLayerInPlace.LevelsAreIfft | src/fri.rs:304-321 | Going level by level over the whole buffer is the recursive transform. |
| LastLayerInPlace.ButterflyInPlace | src/fri.rs:310-317 | The butterfly loop turns one chunk into its butterfly and leaves the rest of the buffer alone. |
| LastLayerInPlace.LevelInPlace | src/fri.rs:307-318 | One pass over all chunks turns the buffer into one level of the transform. |
| LastLayerInPlace.LineIfftInPlace | src/fri.rs:302-321 | All passes turn the buffer into the inverse transform. |
| LastLayerInPlace.LastLayerPolyCoeffs | src/fri.rs:294-336 | The whole in-place routine returns the first eight of the interpolated coefficients. |
| LastLayerInPlace.EvalLastLayerPoly | src/fri.rs:376-407 | The evaluator returns the polynomial at the domain point of the bit-reversed index. |
| FriFold.FoldOfPair | src/verifier.rs:249-254 | Folding f0 + x f1 and f0 - x f1 with twiddle 1/x gives 2 (f0 + alpha f1), for every nonzero x. |
| FriFold.TwiddleIs | src/verifier.rs:30-36 | The line twiddle at a folded index is the inverse x-coordinate of the even member of the pair. |
| FriFold.FoldPreservesMeaning | src/fri.rs:411-427 | A line fold of the values of c on half_odds(L) holds the values of 2 (c_even + alpha c_odd) on half_odds(L-1). |
| FriFold.FoldHalvesDegree | src/fri.rs:411-427 | A bound d on the leading nonzero coefficients becomes ceil(d/2). |
| FriRuns.ChainPreservesMeaning | src/prover.rs:1885-1935 | Over any number of line folds the values stay those of the folded polynomial, whose degree bound is halved each time. |
| FriRuns.LowDegreeRunsExportExactly | src/fri.rs:411-427 | If the bound has come down to eight, the eight exported coefficients reproduce the whole last layer. |
| CircleFolding.PairsAreAntipodal | src/verifier.rs:30-36 | The two members of a circle-fold pair are antipodal points with nonzero y. |
| FirstFold.CircleFoldValue | src/fri.rs:226-241 | The fold of a column holding any circle polynomial f = f00 + x f01 + y f10 + xy f11 (parts in X = 2x^2 - 1): at every pair it is 2 (f00 + alpha f10) + 2 (x/y) (y^2 f11 + alpha f01). |
| FirstFold.CleanAtPairIff | src/fri.rs:228-231 | One pair folds to 2 (f00 + alpha f10) exactly when y^2 f11 + alpha f01 vanishes there (or the domain has two points). |
| FirstFold.FoldsCleanlyIff | src/fri.rs:226-241 | The column folds to 2 (f00 + alpha f10) for every challenge, and already for two different ones, exactly when all coefficients at indices 2 and 3 modulo 4 are zero. |
| FirstFold.XDoesNotFold | src/fri.rs:226-241 | The polynomial x fails: its fold is 2 alpha x/y at every pair, which is nonzero for every nonzero challenge, where 2 (f00 + alpha f10) is 0. |
| FirstFold.PairXOffLineDomain | src/fri.rs:146-156 | The X of a half-coset pair is never an x-coordinate of the half-odds domain that the next fold uses. |
| FirstFold.CanonicPairs | src/cairo_air/prover.rs:2829-2842 | In bit-reversed canonic order the folded pairs are conjugate, off the x-axis, and above the half-odds domain of the next fold. |
| FirstFold.CanonicFoldMeaning | src/cairo_air/prover.rs:2829-2844 | The canonic circle fold of the values of any circle polynomial c gives the values of 2 (c_even + alpha c_odd) on the half-odds domain. |
| FirstFold.CanonicRun | src/cairo_air/prover.rs:2829-2900 | Circle fold and any number of line folds: the last layer holds the folded polynomial, d nonzero coefficients on the circle become at most ceil(d / 2^folds), and once that is 8 the exported coefficients are exact. |
| Hashing.WordBytesInjective | src/merkle.rs:570-577 | Different words give different leaf bytes. |
| Hashing.PairInputInjective | src/merkle.rs:864-873 | Different child pairs give different node inputs. |
| MerkleTree.BuildCpuTreeLayers | src/merkle.rs:841-851 | The loop returns all layers, leaves first, until one node is left. |
| MerkleTree.LayerCount | src/merkle.rs:841-851 | A tree of 2^k leaves has k + 1 layers. |
| MerkleTree.ReduceToRoot | src/merkle.rs:854-861 | Reducing without keeping layers returns the same root. |
| MerkleTree.ExtractPath | src/merkle.rs:887-903 | The walk over the layers returns the siblings on the way to the root. |
| MerkleTree.VerifyAuthPath | src/merkle.rs:520-566 | The check succeeds exactly when the climb from the leaf ends in the expected root. |
| MerkleTree.HonestPathAccepted | src/merkle.rs:520-566 | Every extracted path is accepted against the root with its leaf. |
| MerkleTree.OpeningsBind | src/merkle.rs:520-566 | Two equal-length paths accepted for one root and index have equal leaf hashes, or two constructed inputs of the node hash collide. |
| MerkleTiles.TiledPathIsFullPath | src/merkle.rs:677-752 | An in-tile path followed by a path over the tile roots is the path of the untiled tree. |
| MerkleTiles.PathsFromTiles | src/merkle.rs:726-751 | Extraction from tile subtrees and upper layers returns the paths of the untiled tree. |
| MerkleTiles.TargetedAuthPaths | src/merkle.rs:677-752 | The tiled extractor returns the untiled paths for every power-of-two size and index list. |
| MerkleTiles.TargetedAuthPathsWithTileRoots | src/merkle.rs:758-838 | Given the true tile roots, so does the variant that trusts them. |
| MerkleHeap.HeapNodeIsLayerNode | src/prover.rs:1684-1695 | Heap slot 2^(k-l) - 1 + i is node i of level l. |
| MerkleHeap.HeapTree | src/prover.rs:1684-1695 | Filling the heap array bottom-up leaves the whole tree in it. |
| MerkleHeap.HeapWalk | src/prover.rs:1708-1719 | Walking the heap from a leaf returns the path of the tree. |
| MerkleHeap.TileHeaps | src/prover.rs:1678-1702 | Every tile some index falls into gets its heap. |
| MerkleHeap.HeapPaths | src/prover.rs:1704-1726 | Heap walk in the tile followed by the upper-tree path is, for all indices, the path of the untiled tree. |
| SortedSets.SortedIsAscending | src/stwo_export.rs:285 | The keys of an ordered map come out ascending and complete. |
| SortedSets.AscendingUnique | src/stwo_export.rs:285 | There is only one such sequence. |
| HashWitness.SinglesAreLonely | src/stwo_export.rs:297-308 | On ascending positions the pairing loop emits for exactly those whose sibling is absent. |
| HashWitness.AuthPathsToHashWitness | src/stwo_export.rs:269-323 | The compressor returns, level by level, the path hashes of the positions without sibling. |
| HashWitness.FirstIndexIsFirst | src/stwo_export.rs:274-280 | Of several queries at one position the first one's path and row count. |
| HashWitness.StreamOneLevel | src/stwo_export.rs:294-309 | One pass over a level emits exactly its missing siblings, in order. |
| HashWitness.ParentMap | src/stwo_export.rs:311-317 | Advancing a level keeps, for each parent, the first query that reaches it. |
| HashReconstruct.ReconstructRootFromWitness | src/stwo_export.rs:697-782 | The verifier loop returns the recursive reconstruction, including its four errors. |
| HashReconstruct.ConsumeKeys | src/stwo_export.rs:734-768 | A level fails exactly when the stream is shorter than its missing siblings; otherwise it yields all parents and consumes exactly that many hashes. |
| WitnessRoundTrip.OutcomeExact | src/stwo_export.rs:697-782 | Which outcome a reconstruction has depends only on the stream length and the positions: too short, too long, or a root, each exactly when stated. |
| WitnessRoundTrip.OneAncestor | src/stwo_export.rs:775-779 | Positions below 2^height have one common ancestor, so the single-root check cannot fail for them. |
| WitnessRoundTrip.WitnessHonest | src/stwo_export.rs:269-323 | Compressing true paths gives the siblings the tree itself would supply. |
| WitnessRoundTrip.ReconstructHonest | src/stwo_export.rs:697-782 | From true nodes and those siblings, reconstruction returns the true root. |
| WitnessRoundTrip.RoundTrip | src/stwo_export.rs:269-323 | For every full tree and nonempty query list, with duplicates and siblings in any order, reconstruction from the compressed paths returns the root and consumes the stream exactly. |
| WitnessRoundTrip.MultiOpeningsBind | src/stwo_export.rs:697-782 | Two successful reconstructions of one root at the same positions open the same leaf hashes, or two inputs hashed in the runs collide. |
| FriOpening.DedupFriWitness | src/stwo_export.rs:174-203 | The deduplicated stream is, in ascending order, the sibling value of every queried position whose sibling is not queried. |
| FriOpening.FoldPairHashWitness | src/stwo_export.rs:208-257 | The stream for complete pairs is the compression of the sibling-closed positions, paths taken from the queries. |
| FriOpening.FoldPairLevel | src/stwo_export.rs:234-254 | The merged loop emits the missing siblings and records the parents of one level. |
| FriOpening.ClosedLevelEmitsNothing | src/stwo_export.rs:234-246 | The leaf level of complete pairs emits no hash. |
| FriOpening.LeavesRebuilt | src/stwo_export.rs:174-203 | Queried values and the deduplicated siblings rebuild exactly the sibling-closed set of leaves with their true values. |
| FriOpening.LayerOpening | src/stwo_export.rs:174-257 | Those leaves and the fold-pair stream reconstruct the committed root, for every nonempty position list and height >= 1. |
| StwoExport.BuildTraceWitness | src/stwo_export.rs:645-670 | Merging current and next positions, current first, compresses the merged paths. |
| StwoExport.MergedPathIs | src/stwo_export.rs:653-667 | A queried position keeps the path of its first query; any other position that of the first query it is next to. |
| StwoExport.TransposeRows | src/stwo_export.rs:332-359 | The nested push loops return the stated columns of the first n rows. |
| StwoExport.Export | src/stwo_export.rs:497-567 | The exporter returns for each of the seven trees its columns at the queries and its hash stream. |
| StwoExport.GatherColumns | src/stwo_export.rs:843-863 | The columns of a trace tree are gathered at the merged positions, or a value is missing. |
| StwoExport.LastIndexIsLast | src/stwo_export.rs:835-840 | Looking a value up by position finds the last query at it. |
| StwoExport.VerifyAllMerkleWitnesses | src/stwo_export.rs:796-876 | The verifier accepts exactly when every tree opens its commitment; otherwise it names the first tree, in checking order, that does not, and what is wrong with it. |
| StwoExport.MergedPathsHonest | src/stwo_export.rs:653-667 | Merged true paths are the true paths of the merged positions. |
| StwoExport.HonestExportAccepted | src/stwo_export.rs:796-876 | It accepts the export of every honest opening, for any nonempty query list and any order a sort may produce. |
| ExportBinding.CommitmentsAreChecked | src/stwo_export.rs:811-826 | An accepted export is rejected once the commitment of any tree with columns is replaced. |
| ExportBinding.OpenedRowsAgree | src/stwo_export.rs:697-782 | Two openings of one root at the same positions have the same row at the first occurrence of each position, or two hashed inputs collide. |
| ExportBinding.WideTreesBind | src/stwo_export.rs:811-826 | Two accepted exports with the same commitments, queries and order have, in trees 3 to 6, equal columns at every opened position, or two hashed inputs collide. |
| ExportBinding.TraceTreesBind | src/stwo_export.rs:828-875 | In trees 0 to 2 they have equal current rows at the last query of each position, and equal next rows at positions that are no query, or two hashed inputs collide. |
| FiatShamir.Channel.Squeeze | src/channel.rs:177-184 | A squeeze hashes state, counter and a zero byte, and only advances the counter. |
| FiatShamir.Channel.MixDigest | src/channel.rs:30-38 | Mixing replaces the state by a hash of state and digest and resets the counter. |
| FiatShamir.Channel.MixFelts | src/channel.rs:46-59 | Mixing elements hashes all their words at once; an empty list changes nothing. |
| FiatShamir.Channel.MixU64 | src/channel.rs:120-129 | Mixing a 64-bit value hashes its low word, then its high word. |
| FiatShamir.Channel.DrawFelt | src/channel.rs:66-83 | Rejection sampling returns the first accepted squeeze, reduced, and leaves the state alone. |
| FiatShamir.Channel.DrawNumber | src/channel.rs:91-95 | The first eight bytes of a squeeze as a little-endian number, reduced by the bound. |
| FiatShamir.Channel.DrawNumbers | src/verifier.rs:91-93 | Successive draws, one squeeze each. |
| FiatShamir.Channel.DrawQueryIndices | src/channel.rs:102-116 | Index i is word i mod 8 of squeeze i / 8, masked to the domain. |
| FiatShamir.NumberIsLittleEndian | src/channel.rs:91-95 | Joining the first two words of a squeeze gives the little-endian number of its first eight bytes. |
| FiatShamir.NumberIsMaskedWord | src/channel.rs:91-116 | For a bound 2^k, k <= 32, a drawn number is the first word masked. |
| FiatShamir.DrawIndexTwice | src/channel.rs:91-116 | From equal states draw_number(2^k) and draw_query_indices(k, 1), k < 32, return the same index. |
| FiatShamir.KeptExactly | src/channel.rs:66-83 | A squeeze is rejected exactly when one of its eight words is 2^32 - 2 or 2^32 - 1. |
| FiatShamir.KeptWordsBalanced | src/channel.rs:66-83 | Each field element has exactly two kept words, so the draw is unbiased. |
| FiatShamir.DrawnWords | src/channel.rs:72-79 | The words of a drawn element are the first four words of the squeeze, in order. |
| FiatShamir.SqueezeInputInjective | src/channel.rs:177-184 | A squeeze input determines the state and the counter. |
| FiatShamir.DrawsAreFresh | src/channel.rs:177-184 | Successive squeezes hash different inputs until the counter has gone round. |
| FiatShamir.InputsSeparate | src/channel.rs:30-59 | A squeeze never hashes the input of a mix. |
| FiatShamir.FeltsInputInjective | src/channel.rs:46-59 | The input of mix_felts determines the state and all elements. |
| FiatShamir.DrawsForgotten | src/channel.rs:30-38 | Any number of draws before a mix leaves the mixed state unchanged. |
| FiatShamir.TranscriptBinds | src/channel.rs:30-38 | Equal states after equally many commitments mean equal commitments, or a step of the two transcripts hashes different inputs to one digest. |
| Transcripts.FoldStateIs | src/verifier.rs:56-72 | The state at fold k is the empty channel with trace, quotient and the first k layer commitments mixed in, in this order. |
| Transcripts.FoldStatesBind | src/verifier.rs:56-72 | Equal states at fold k come from equal trace, quotient and first k layer commitments, or a step hashes two different inputs to one digest. |
| Transcripts.IndexStatesBind | src/verifier.rs:89-96 | Equal states before the indices come from equal commitments and last layers, or a mix collides. |
| Transcripts.ChallengeSeparates | src/verifier.rs:56-72 | For two proofs that differ in a commitment before fold k there is a hash under which their challenges at fold k differ. |
| Transcripts.ChallengeDependsOnPrefix | src/verifier.rs:56-72 | A challenge depends on nothing committed later. |
| Transcripts.IndicesSeparate | src/verifier.rs:89-96 | For two proofs that differ in a commitment or in the last layer there is a hash under which their query indices differ. |
| Transcripts.ConstraintChallengeSeparates | src/prover.rs:1799-1806 | Different trace commitments can give different constraint challenges. |
| StarkProof.QuotientZeroIff | src/prover.rs:1522-1530 | For a nonzero challenge the recomputed quotient vanishes exactly where the trace satisfies the recurrence. |
| StarkProof.QuotientSlopes | src/prover.rs:1522-1530 | Raising one of the three trace values by v moves the quotient by alpha v, up for the newest and down for the other two. |
| StarkVerifier.VerifyPaths | src/verifier.rs:258-310 | The path checks accept exactly when sizes match and every value and sibling opens; otherwise the error names the first that does not. |
| StarkVerifier.Replay | src/verifier.rs:56-96 | Replaying the channel gives the fold challenges and query indices of the transcript, despite the extra challenge drawn and dropped. |
| StarkVerifier.CheckOpenings | src/verifier.rs:106-144 | Trace, quotient and layers are checked at the queries and their halvings; an error names the first part that fails. |
| StarkVerifier.CheckQuery | src/verifier.rs:153-233 | The fold loop accepts a query exactly when every fold equation and the last-layer equality hold; an error names the first that fails. |
| StarkVerifier.Verify | src/verifier.rs:39-236 | The verifier accepts exactly the proofs with the stated form, openings and fold equations, and each rejection names the first check that fails. |
| StarkVerifier.AcceptedProofsBind | src/verifier.rs:39-236 | Two accepted proofs with one transcript ask the same queries and, where path lengths agree, open the same trace, quotient and layer values and siblings or exhibit a hash collision. |
| Acceptance.AcceptedShape | src/verifier.rs:39-103 | An accepted proof has inputs below P, 80 queries inside the domain, the stated numbers of commitments and values, and nonzero roots. |
| Acceptance.CirclePairs | src/verifier.rs:158-172 | The pairs of the circle fold are antipodal, on the half coset and on the full group alike; only the first pair of the full group lies on the x-axis. |
| Acceptance.LinePairs | src/verifier.rs:187-196 | The pairs of every line fold, the borrowed domain of 2^30 points included, are opposite in x and off the y-axis. |
| Acceptance.AcceptedCircleFold | src/verifier.rs:156-182 | In an accepted proof, if an opened quotient pair holds the values of a circle polynomial, the opened value of the first layer is 2 (f00 + alpha f10) + 2 (x/y) (y^2 f11 + alpha f01). |
| Acceptance.AcceptedLineFold | src/verifier.rs:184-213 | If an opened pair of a layer holds the values of a line polynomial c, the opened value of the next layer is that of 2 (c_even + alpha c_odd) at the doubled x, the point of its own index. |
| Acceptance.AcceptedLastValue | src/verifier.rs:215-232 | The last opened value is the entry of the last layer at its index. |
| Acceptance.AcceptedValuesDetermined | src/verifier.rs:153-213 | Two accepted proofs with one transcript, equal quotient pairs and equal siblings before a layer open equal values in that layer. |
| StarkProver.PrecomputeFriTwiddles | src/fri.rs:143-160 | The twiddle lists are those of the circle fold and of each line fold, for every stopping size. |
| StarkProver.CommitPhase | src/prover.rs:1853-1937 | The fold loops commit layers each folded with the challenge its transcript gives, down to eight values. |
| StarkProver.DecommitLayers | src/prover.rs:1960-1988 | Every layer is opened at the halved indices with true values, siblings and paths. |
| StarkProver.Prove | src/prover.rs:1750-2007 | From an evaluated trace the prover returns an honest run. |
| StarkProver.CircleFoldAccepted | src/verifier.rs:157-188 | Every honest run satisfies the circle-fold check. |
| StarkProver.LineFoldAccepted | src/verifier.rs:190-217 | Every honest run satisfies every line-fold check. |
| StarkProver.HonestOpeningsAccepted | src/verifier.rs:106-144 | Every honest run passes all path checks. |
| StarkProver.Completeness | src/verifier.rs:39-236 | For every evaluated trace with 6 <= log <= 30 and canonical inputs, the honest proof is accepted exactly when both roots are nonzero. |
| StarkProver.RunFoldsPolynomial | src/prover.rs:1885-1935 | In an honest run the last layer holds the folded polynomial of the first line layer, within the halved degree bound. |
| StarkProver.ProveThenVerify | src/verifier.rs:318-322 | Proving and then verifying accepts, unless a root is all zero. |
| HonestRuns.HonestRunExists | src/prover.rs:1750-2007 | Every evaluated trace and every pair of inputs has an honest run. |
| HonestRuns.OpenedRows | src/prover.rs:1522-1530 | An honest run opens the trace value at each query, and the defect of the recurrence there times the challenge drawn from the trace commitment. |
| HonestRuns.FirstLayerOfColumn | src/prover.rs:1861-1866 | In an honest run whose quotient column holds a circle polynomial, the value of the first line layer at every position. |
| HonestRuns.HeldPolynomialIsUnique | src/fri.rs:294-336 | A column holds exactly one polynomial of its size, the interpolated one; so every first line layer holds one. |
| HonestRuns.LastLayerDegreeIff | src/verifier.rs:215-231 | In an honest run the last layer interpolates to the fold of the polynomial of the first line layer, so it has degree below d exactly when the coefficients of that fold from d on vanish. |
| HonestRuns.HighDegreeAccepted | src/verifier.rs:8 | A concrete honest run that is accepted although its last layer has degree 2 or more, above the bound for its blowup. |
| HonestRuns.ProveFibonacci | src/prover.rs:1750-2007 | From the public inputs: the parallel trace, extended by any transform, gives an honest run with those inputs. |
| HonestRuns.ProveFibonacciThenVerify | src/verifier.rs:318-322 | Proving from the public inputs and verifying accepts, unless a root is all zero. |
| OodsFold.FoldOfPairs | src/oods.rs:341-351 | The recursive half-split fold equals one adjacent-pair pass followed by the fold with one factor fewer. |
| OodsFold.FoldIsWeightedSum | src/oods.rs:292-338 | A fold is the sum of c_i times the factors selected by the bits of i. |
| OodsFold.SegmentedFold | src/oods.rs:258-289 | Folding segments and then their results is one fold, for every split of the factors. |
| OodsFold.FoldM31Seq | src/oods.rs:229-242 | The iterative pair fold returns the recursive fold. |
| OodsFold.FoldQm31Seq | src/oods.rs:245-256 | So does the secure-field version. |
| OodsFold.FoldM31 | src/oods.rs:258-289 | So does the version split into segments of 2^16. |
| OodsPoints.DrawnPointOnCircle | src/oods.rs:44-51 | The drawn point is on the circle exactly when 1 + t^2 is nonzero; otherwise it is (0, 0). |
| OodsPoints.DrawnPointCanFail | src/oods.rs:44-51 | The failing case occurs: t = i draws (0, 0), off the circle. |
| OodsPoints.ParameterRecovered | src/oods.rs:44-51 | The parameter is y / (1 + x) of the drawn point whenever 1 + t^2 is nonzero, so different parameters draw different points. |
| OodsPoints.DrawnByOneParameter | src/oods.rs:44-51 | Every circle point with 1 + x nonzero is drawn by exactly one parameter. |
| OodsPoints.NextStepIsPMul | src/oods.rs:74-81 | On base-field points stepping is the group operation. |
| OodsPoints.NextStepIsCanonicNext | src/oods.rs:74-81 | On the evaluation domain next_step leads to the point at canonic_next. |
| OodsPoints.NextStepOnCircle | src/oods.rs:74-81 | Stepping by a circle point stays on the circle. |
| OodsPoints.EvalAtOods | src/oods.rs:133-161 | Evaluation returns the sum of the coefficients times the circle basis at the point. |
| OodsPoints.EvalAtOodsSeq | src/oods.rs:169-185 | The sequential variant returns the same sum. |
| OodsPoints.EvalSecureAtOods | src/oods.rs:191-211 | The secure-coefficient variant returns the same sum. |
| OodsPoints.CircleSumSplits | src/oods.rs:133-161 | At base-field points that sum is f0(x) + y f1(x) for the line polynomials of the even and odd coefficients. |
| OodsPoints.OodsVanishing | src/oods.rs:417-423 | The loop returns the iterated doubling of the x-coordinate. |
| OodsPoints.OodsVanishingAgrees | src/oods.rs:408-423 | At base-field circle points it equals the coset vanishing value of the half coset and is zero exactly on it. |
| BatchInverse.QBatchInverse | src/oods.rs:103-119 | The prefix and suffix loops return all inverses if no entry is zero, and zero everywhere otherwise. |
| BatchInverse.NonzeroEntriesInvertedIff | src/oods.rs:101-102 | All nonzero entries are inverted exactly when no entry is zero or all are. |
| BatchInverse.OneBesideZero | src/oods.rs:101-102 | A one next to a zero comes out as zero. |
| BatchInverse.BatchInvertInPlace | src/ntt.rs:342-355 | The in-place loops leave all inverses if no entry is zero, and zero everywhere otherwise. |
| TwiddleCache.FlatTwiddlesFill | src/ntt.rs:337-340 | The layers and the pushed 1 fill the buffer exactly, so the padding loop never runs. |
| TwiddleCache.LayerSlots | src/ntt.rs:312-336 | Slot 2^L - 2^(L-l) + i holds the x-coordinate of the l-fold doubled coset at the reversal of i. |
| TwiddleCache.FlatTwiddlesNonzero | src/ntt.rs:312-338 | No slot is zero. |
| TwiddleCache.HalfOddsDoubled | src/ntt.rs:330-335 | Doubling the twiddle coset gives the half-odds coset of half the size. |
| TwiddleCache.BuildForward | src/ntt.rs:300-340 | The loops build exactly that buffer. |
| TwiddleCache.NewCache | src/ntt.rs:300-362 | Every forward twiddle times its inverse is one. |
| Poseidon2.SboxInv | src/rpo_m31.rs:199-211 | The loop returns the power 1717986917. |
| Poseidon2.SboxesInvert | src/rpo_m31.rs:191-211 | The two S-boxes undo each other on the whole field. |
| Poseidon2.MExtUndone | src/poseidon.rs:46-51 | The external layer has a left inverse. |
| Poseidon2.MExtRedone | src/poseidon.rs:46-51 | It has the same right inverse. |
| Poseidon2.MIntUndone | src/poseidon.rs:56-61 | The internal layer has a left inverse. |
| Poseidon2.MIntRedone | src/poseidon.rs:56-61 | It has the same right inverse. |
| Poseidon2.RoundInverts | src/poseidon.rs:133-147 | Every round has an explicit two-sided inverse. |
| Poseidon2.PermutationIsBijective | src/poseidon.rs:128-149 | The permutation is a bijection, whatever the round constants. |
| Poseidon2.LayersAreCirculant | src/poseidon.rs:15-19 | The linear layers multiply by circ(3, 1, ..., 1) and circ(2, 1, ..., 1). |
| Poseidon2.FullRoundFormula | src/poseidon.rs:133-137 | A full round sums the fifth powers of all shifted entries with the circulant weights. |
| Poseidon2.PartialRoundFormula | src/poseidon.rs:138-142 | A partial round shifts and powers the first entry only. |
| Poseidon2.PermutationInPhases | src/poseidon.rs:127-149 | The permutation is four full rounds, twenty-two partial ones and four full ones, taking the constants in order. |
| PoseidonAir.MExtInPlace | src/poseidon.rs:46-51 | The in-place loop applies the external layer. |
| PoseidonAir.MIntInPlace | src/poseidon.rs:56-61 | The in-place loop applies the internal layer. |
| PoseidonAir.PoseidonPermutation | src/poseidon.rs:128-149 | The three in-place loops return the permutation. |
| PoseidonAir.GenerateTrace | src/poseidon.rs:162-206 | Row i holds block i / 30 after round i % 30, and the last output is the permutation of the last block input. |
| PoseidonAir.InputsCountUp | src/poseidon.rs:179-184 | The entries of the block inputs count up from 1, on from block to block. |
| PoseidonAir.EvalConstraintsAt | src/poseidon.rs:211-250 | The constraint values are the next row minus the round applied to this row. |
| PoseidonAir.ConstraintSlope | src/poseidon.rs:243-249 | Raising one entry of the next row by v raises its constraint by v and no other. |
| PoseidonAir.BlockSatisfiedIff | src/poseidon.rs:211-250 | A block that starts with round 0 of an input has zero constraints exactly when every row is the input after that many rounds. |
| PoseidonAir.ConstraintsForcePermutation | src/poseidon.rs:211-250 | Zero constraints on such a block force its last row to be the permutation of the input. |
| PoseidonAir.TraceSatisfies | src/poseidon.rs:162-250 | Every generated block has zero constraints at its 29 inner transitions and ends in the permutation of its input. |
| Fibonacci.StepsAreFib | src/air.rs:85-131 | k matrix steps take (F(1), F(0)) to (F(k+1), F(k)). |
| Fibonacci.FibAt | src/air.rs:85-131 | Square-and-multiply on matrices returns F(k) and F(k+1) for every k. |
| Fibonacci.FibonacciTrace | src/air.rs:16-25 | The sequential loop fills the trace with the Fibonacci values. |
| Fibonacci.WriteKeepsChunks | src/air.rs:172-187 | One write of one thread keeps the progress of every chunk: chunks are disjoint. |
| Fibonacci.FibonacciTraceParallel | src/air.rs:136-189 | Every interleaving of the eight threads leaves the same trace and touches nothing beyond it. |
| Fibonacci.ConstraintsDetermineTrace | src/air.rs:1-9 | A column meets the boundary and every transition exactly when it is the Fibonacci trace. |
| Fibonacci.TransitionSlope | src/air.rs:191-196 | Raising the newest value by v raises the transition constraint by v. |
| ProofCodec.SerializeProof | src/bin/stark_cli.rs:1092-1120 | The writer emits exactly the encoding. |
| ProofCodec.ProofAsWords | src/bin/stark_cli.rs:1092-1120 | The file is the stated list of words, four little-endian bytes each. |
| ProofCodec.DeserializeProof | src/bin/stark_cli.rs:1189-1233 | The reader returns what the decoder says, or fails where it panics. |
| ProofCodec.Writer.WriteDecommitment | src/bin/stark_cli.rs:1062-1090 | Appends exactly the encoding of a decommitment. |
| ProofCodec.Reader.ReadDecommitment | src/bin/stark_cli.rs:1159-1187 | Reads exactly what the decoder says and leaves the rest. |
| ProofCodec.DecommitmentRoundTrip | src/bin/stark_cli.rs:1062-1187 | A decommitment with equal vector lengths is read back and nothing after it is touched. |
| ProofCodec.ProofRoundTrip | src/bin/stark_cli.rs:1092-1233 | Reading a written proof returns it and leaves exactly what follows. |
| ProofCodec.LongIndexIsLost | src/bin/stark_cli.rs:1110-1111 | A word is read back exactly when it fits 32 bits. |
| ProofCodec.WriteThenRead | src/bin/stark_cli.rs:1092-1233 | Writing and reading a representable proof returns it. |
| ProofFiles.ToWireInjective | src/bin/stark_cli.rs:1092-1120 | The written fields determine the proof. |
| ProofFiles.WireRoundTrip | src/bin/stark_cli.rs:1189-1233 | Putting the written fields back together gives the proof. |
| ProofFiles.HonestProofFits | src/bin/stark_cli.rs:1092-1120 | Every honest proof is representable. |
| ProofFiles.ProveThroughFile | src/bin/stark_cli.rs:1092-1233 | From the public inputs: prove, write, read and put together; the result is the proof, accepted exactly when its roots are nonzero. |
| Felt252.GePrime | src/cairo_air/stark252_field.rs:85-91 | The limb comparison decides whether the value is at least the prime. |
| Felt252.SubPrime | src/cairo_air/stark252_field.rs:94-102 | Subtraction with borrow subtracts the prime. |
| Felt252.New | src/cairo_air/stark252_field.rs:55-82 | Reduction returns the canonical residue and leaves canonical values alone. |
| Felt252.ToLeBytes | src/felt252.rs:75-85 | The 32 bytes are the base-256 digits of the value. |
| Felt252.FromBytes | src/felt252.rs:159-167 | Reading bytes returns their value modulo the prime. |
| Felt252.ToM31Limbs9 | src/felt252.rs:122-142 | The accumulator loop returns nine base-2^28 digits, each below 2^28. |
| Felt252.FillAccumulator | src/felt252.rs:133-137 | Loading bytes keeps the remaining value and never overflows 64 bits. |
| Felt252.PackBytes | src/felt252.rs:177-194 | The byte loop returns the base-256 digits of the masked limbs. |
| Felt252.FromM31Limbs9 | src/felt252.rs:173-196 | Repacking returns the value of the masked limbs modulo the prime. |
| Felt252.LimbsSumToValueIff | src/felt252.rs:116-142 | The limbs sum to the value in base 2^28 exactly when it is below 2^252; canonical elements are. |
| Felt252.RepackRoundTrip | src/felt252.rs:122-196 | Repacking a canonical element into limbs and back returns it. |

## Left out

- GPU kernels, device buffers, streams and pinned memory: replaced by the host formulas for folds, twiddles, quotient and trees.
- The circle NTT itself: the extension of the trace to the blowup domain is any function, given as a parameter.
- Blake2s: any hash function; only binding statements speak of collisions.
- Proof-of-work grinding and `verify_pow_nonce`: a hash predicate with no structure here.
- Statistical soundness, security bits and zero knowledge: probabilistic.
- Cairo AIR constraints, the VM, hints, LogUp and range-check arguments: only `canonic_next`, the FRI folds and the Merkle side of the Cairo proof are modelled.
- Build variants with other hash reduction, blowup or query counts: the default build is modelled (blowup 4, 80 queries).
- RPO-M31 beyond its S-boxes: needs the inverse of one concrete 24 by 24 matrix.
- Poseidon2 round-constant generation: the constants are parameters, so results hold for all of them.
- `prove_lean_inner` and `prove_lean_fused`: the same protocol over other memory layouts; their tiled and heap path extraction is modelled.
- The rest of the JSON export (sampled values, FRI section layout, metadata): plain copying.
- Hexadecimal and base64 text formats, RPC, dashboard and benchmarks: input and output only.
- FiatShamir.Channel.DrawFelt: total only under the assumption that some squeeze is accepted, because the source loop has no bound; the counter wraps at 32 bits as in a release build.
- StarkVerifier.Verify: opened secure-field words are taken as canonical (below P), because the source does not reduce them when it builds elements; evaluation domains above 2^31 points, which the source rejects by an assertion, are excluded.
- StarkProver.Completeness: stops at evaluation domains of 2^30 points, the largest for which the prover's half coset exists.
- StarkVerifier.AcceptedProofsBind: compares rows only where path lengths agree, because the source does not check path lengths.
- StwoExport.VerifyAllMerkleWitnesses: the unstable sort of trees 3 to 6 is any sorting order, given as a parameter; vectors are as long as its indexing needs.
- Fibonacci.FibonacciTraceParallel: a thread's step is one element write; torn or reordered memory accesses are not modelled.
- TwiddleCache.NewCache: stops at log_n = 30, the largest size whose domain exists.
- LastLayerInPlace.LastLayerPolyCoeffs: stated for sizes up to 2^30; the meaning of the result is proved for sizes up to 2^29, because half_odds(30) borrows its initial point.
