# Model of a state proof light client

A light client trusts one commitment to the participants of a proof-of-stake chain and follows the chain
through state proofs: every proof attests a message that carries the next commitment. This project models
the four layers that make this work and proves what each promises to the next.

- **Trees** (`Bytes`, `Bits`, `Hashing`, `MerkleTree`, `VcTree`, `OrderedMap`, `BatchProof`, `BatchRange`,
  `VcBatch`, `DepthBinding`, `VcOpening`, `IndexBinding`): Merkle trees with two padding rules, vector commitments with
  bit-reversed slots, single paths and shared batch paths, and what they bind: leaf, depth and index.
- **Hashing** (`SumhashCore`, `SumhashTable`, `MerkleDamgard`, `Sumhash`, `MatrixProduct`): the streaming
  subset-sum hasher, its byte table, the matrix product it stands for, and the reduction of digest collisions to
  compression collisions.
- **Wire format** (`Wire`, `PackEncoder`, `Canonical`, `PackWriter`, `Reader`, `Types`, `Decoders`,
  `TypedDecoders`, `DecodeLoops`, `RoundTrip`, `Shapes`, `Utf8Text`, `WireValues`, `WireReadings`,
  `WireRecords`, `WireReference`): the canonical MessagePack writer, the cursor-based readers, the skipper and
  every typed decoder, and what each of them means on MessagePack values as trees.
- **Verification** (`Coin`, `Leaves`, `KeyTree`, `Verifier`, `VerifierRun`, `Outcomes`, `Soundness`,
  `Signers`, `Aliasing`, `Reduction`, `Completeness`, `Witness`, `LightClient`, `Layouts`): coins by rejection
  sampling, leaf preimages and the layout of every hashed string, the staged verification, what acceptance
  means over whole chains and where it means less than it should, and block headers and transactions below an
  accepted message.

Conventions. Digests are byte sequences and a hash function (`HashFn`) is any function to digests of one
length; nothing is assumed of it. Every binding theorem therefore ends in `CollisionBetween(A, B)`, where
`A` and `B` are the sets of byte strings hashed by the verifier and by the builder, so the collision is
always between inputs that were really hashed. Code that updates objects is modelled by classes and methods
with loops, each proved equal to a function on values; the theorems are about those functions. Machine
integers carry their range (`Byte`, `U64`, lanes modulo 2^64) and wrap-around is written out where the
program wraps; `Build` says whether arithmetic overflow panics or wraps. A verification that panics, or that
asks an exhausted stream for a coin and never returns, is a verdict of its own.

Where a comment and the code differ the model follows the code: an example in the fixed signature layout shows
path entries before the zero filler, while the code puts the filler first
(`crates/state-proof/src/stateproof/mod.rs:207-216`).

## Findings

Four properties that the documentation states, or that one would expect of the verifier, do not hold of the code.
Each has an input and its exact condition.

| property | input on which it fails | condition under which it holds |
|---|---|---|
| every participant opened by an accepted proof is the committed one | `Aliasing.AcceptedButNotAuthentic`: the slot of an opened position p opened once more at p + 2^d, where d is the depth of the trees. Whole positions are compared (`crates/state-proof/src/stateproof/verify.rs:243-247`), the trees use their low bits (`crates/merkle/src/lib.rs:206-208`), and the batch map keeps the last entry (`crates/merkle/src/lib.rs:458`) | `Aliasing.AuthenticityForcedIff`: if and only if no two opened positions agree in their low d bits. Positions below 2^d suffice (`Soundness.PositionsBelowCapacity`); without the condition it still holds of the last opening of every slot (`Soundness.LastAuthentic`) |
| vector commitment proofs bind the index: a leaf occupies a specific position (`crates/merkle/README.md:11-14`), "is included at `index`" (`crates/state-proof/src/light_block_header.rs:142`, `crates/state-proof/src/light_block_header.rs:162`) | `IndexBinding.WrongIndexAccepted`: over [a, b] the leaf a at index 1 with declared depth 0 and path [digest(b)]; so `LightClient.TwoHeadersOneIndex`, two headers for one index. The start comes from the declared depth, the number of steps from the path, and they are not compared (`crates/merkle/src/lib.rs:433-435`). `IndexBinding.LargerIndexAccepted`: index i + 2^d with the proof of i | `IndexBinding.BindsIndexIff`: an index is bound, up to its slot, if and only if depth and path length put it at the same place; `IndexBinding.BindsExactlyIff`: the very index, if and only if it is also below 2^length; `IndexBinding.BindsEveryIndexIff`: every index, up to its slot, if and only if the declared depth is the length of the path or the path is empty. A caller can check both; then `LightClient.EndToEndBinding` and the last clauses of `LightClient.AcceptedIsGenuine` apply |
| only rounds of the interval have an index: `None` outside of first to last attested round (`crates/state-proof/src/stateproof/message.rs:72-73`) | `LightClient.IndexedOutside`: the round behind the end of an interval of fewer than 256 rounds, which the code does not compare with (`crates/state-proof/src/stateproof/message.rs:74-77`) | `LightClient.IndexedInsideIff`: if and only if the interval has exactly 256 rounds, or ends at the largest number before that |
| verification always returns a verdict | `Witness.VerifyCanAbort`: a signature proof of depth 0 with one path entry, which the fixed layout has no room for (`crates/state-proof/src/stateproof/mod.rs:210-216`). `Witness.VerifyCanHang`: unsigned openings, weight 3 and a stream without acceptable words (`crates/state-proof/src/stateproof/coin.rs:102-111`) | `Outcomes.VerifyReturnsIff`: if and only if no opening aborts behind passing ones and the stream does not run out behind covered coins. `Witness.NeverAbortsIff`: the first half holds of an opening in every environment if and only if it is unsigned or its proof has a depth of at most 64 and a path no longer than its depth (for depths up to 16) or than 16 (beyond); `Coin.EveryCoinIff`: the stream has every coin if and only if acceptable words never run out. Together they suffice (`Outcomes.SafeReturns`) |

## Model

| member | source | states |
|---|---|---|
| MerkleTree.BuildLevels | crates/merkle/src/lib.rs:212-231 | the level loop yields exactly the recursively defined tree over the leaf level, each level the pairwise hashes of the one below with the pad on the right of an odd level |
| MerkleTree.DepthIsCeilLog2 | crates/merkle/src/lib.rs:261-263 | a tree over n > 0 leaves has ceil(log2 n) levels above the leaves |
| Layouts.ParentLayout | crates/merkle/src/lib.rs:186-191 | every node of the level above is the digest of "MA", left child, right child, in this order and with the pad for a missing right child |
| Layouts.StepLayout | crates/merkle/src/lib.rs:401-410 | one step of a climb hashes "MA" and then the current node in front of its sibling at an even index, behind it at an odd one |
| MerkleTree.BuildTree | crates/merkle/src/lib.rs:248-253 | leaf digests in order, zero-digest padding; no levels for no leaves |
| MerkleTree.ProveInTree | crates/merkle/src/lib.rs:266-277 | no proof exactly for an index past the leaves; otherwise the sibling of every ancestor, the zero digest where there is none |
| MerkleTree.VerifyWith | crates/merkle/src/lib.rs:401-410 | accepts exactly if climbing from the leaf along the path by the parity of the index gives the root |
| MerkleTree.ClimbCompleteness | crates/merkle/src/lib.rs:212-231 | for every leaf count, odd levels included, climbing from any leaf along its own siblings reaches the root |
| MerkleTree.TreeCompleteness | crates/merkle/src/lib.rs:266-277 | what `prove` returns for any leaf of any tree built by `build` leads to that tree's root |
| MerkleTree.PathBinding | crates/merkle/src/lib.rs:401-410 | two equally long paths from one index to one root are the same path from the same leaf, or two of the inputs hashed on the two climbs collide |
| MerkleTree.TreeBinding | crates/merkle/src/lib.rs:401-410 | a path of full length accepted at a leaf position is the tree's own path for the tree's own leaf, or an input hashed by the verifier collides with one hashed by the builder |
| VcTree.VcIndexReverses | crates/merkle/src/lib.rs:206-208 | for depths up to the word size, shifting the reversed 64-bit word down reverses exactly the `depth` low bits of the index and ignores the others |
| VcTree.VcIndexInvolution | crates/merkle/src/lib.rs:206-208 | on positions below 2^depth the mapping is its own inverse, so no two leaves share a slot |
| VcTree.PlaceLeaves | crates/merkle/src/lib.rs:297-309 | after the placement loop every slot holds the leaf with that reversed index, or the bottom leaf if there is none |
| VcTree.BuildVcTree | crates/merkle/src/lib.rs:297-309 | the tree over that slot level, its width the next power of two; no levels for no leaves |
| VcTree.ProveInVcTree | crates/merkle/src/lib.rs:324-337 | no proof exactly past the leaf count; otherwise the siblings above the reversed index, never out of bounds, with the tree depth |
| VcTree.VerifyVcWith | crates/merkle/src/lib.rs:433-435 | panics exactly in an overflow-checked build with a depth above 64; otherwise accepts exactly if the climb from the (possibly wrapped) reversed index gives the root |
| VcTree.PerfectLevels | crates/merkle/src/lib.rs:212-231 | over 2^d slots, level k has exactly 2^(d-k) nodes, so padding is never used |
| VcTree.VcCompleteness | crates/merkle/src/lib.rs:324-337 | for every leaf count n > 0 and every i < n the proof of i leads to the root |
| VcTree.VcBinding | crates/merkle/src/lib.rs:433-435 | a full-length proof for any index follows the tree's own path and opens what the vector holds in the slot of that index (the bottom leaf past its end), or exposes a collision |
| OrderedMap.CollectLastWins | crates/merkle/src/lib.rs:458-458 | collecting the batch into an ordered map sorts it by index and keeps the last entry of every index |
| OrderedMap.InsertContents | crates/merkle/src/lib.rs:472-472 | inserting into the sorted list is map update |
| OrderedMap.RemoveContents | crates/merkle/src/lib.rs:462-465 | removing from the sorted list is map removal |
| BatchProof.RunRound | crates/merkle/src/lib.rs:460-475 | popping the least node, taking its sibling from the level or the path, and inserting the parent computes one round, and fails exactly when the path runs out |
| BatchProof.VerifyBatch | crates/merkle/src/lib.rs:454-477 | accepts exactly if all rounds succeed, end in the single root node, and use up the whole path; an empty batch exactly with an empty path |
| BatchProof.RoundKeys | crates/merkle/src/lib.rs:460-475 | a finished round has exactly the key set {k/2}, in ascending order: no insertion overwrites another |
| BatchProof.TakenIsAbsent | crates/merkle/src/lib.rs:460-475 | the order in which the greedy verifier consumes siblings is the ascending order of the siblings absent from the batch |
| BatchProof.RoundCompleteness | crates/merkle/src/lib.rs:460-475 | a round over the tree's own nodes with the absent siblings in front of the path consumes just those and reaches the tree's parents |
| BatchProof.RoundBinding | crates/merkle/src/lib.rs:460-475 | a round that reaches the tree's parents started from the tree's own nodes and consumed the absent siblings, or exposes a collision |
| BatchProof.RoundsCompleteness | crates/merkle/src/lib.rs:454-477 | all rounds over any non-empty batch of a 2^d-leaf tree end in its root with nothing left of the reference path |
| BatchProof.BatchCompleteness | crates/merkle/src/lib.rs:454-477 | any batch, repeated indices included, whose last entry of every index is the tree's leaf is accepted with the path of absent siblings |
| BatchProof.BatchBinding | crates/merkle/src/lib.rs:454-477 | an accepted batch of in-range indices, repeated or not, has the tree's own leaf in the last entry of every index and exactly that path, element for element, or exposes a collision |
| BatchProof.DistinctOpens | crates/merkle/src/lib.rs:454-477 | with distinct indices this is a statement about every entry |
| BatchProof.BatchInputsInTree | crates/merkle/src/lib.rs:460-475 | a batch of the tree's own leaves makes the verifier hash nothing that the tree did not hash |
| BatchProof.BatchLastWins | crates/merkle/src/lib.rs:454-458 | the verdict depends only on the last entry of every index, not on the order of the entries |
| BatchProof.SingletonBatch | crates/merkle/src/lib.rs:454-477 | a batch of one is accepted exactly if the path has full length and the single-leaf climb gives the root |
| BatchRange.AnyIndicesIff | crates/merkle/src/lib.rs:454-477 | a batch of any indices is accepted if and only if they all lie in one repetition of the tree, 2^depth wide, and the batch of their positions in it is accepted |
| BatchRange.ScatteredRefused | crates/merkle/src/lib.rs:454-477 | so indices in different repetitions are refused, whatever the root and the path |
| DepthBinding.BatchBindingAnyDepth | crates/merkle/src/lib.rs:454-477 | an accepted batch of leaf digests, whatever depth is declared, has the depth of the tree, the tree's own leaf in the last entry of every index and exactly the path of absent siblings; or inputs collide, because a leaf was taken for a node or a node for a leaf |
| DepthBinding.ClimbLengthForced | crates/merkle/src/lib.rs:401-410 | a single leaf climbs to the root of a tree only along a path of that tree's depth, or two hashed inputs collide |
| VcBatch.VerifyBatchVc | crates/merkle/src/lib.rs:483-489 | panics exactly for a non-empty batch in an overflow-checked build with a depth above 64; otherwise accepts exactly if the batch with reversed indices is accepted |
| VcBatch.VcBatchCompleteness | crates/merkle/src/lib.rs:483-489 | any batch whose last entry of every slot is the committed value is accepted against the commitment with the path of absent siblings |
| VcBatch.VcBatchBinding | crates/merkle/src/lib.rs:483-489 | an accepted batch, whatever its indices, has the committed value in the last entry of every slot it addresses, along the reference path, or exposes a collision |
| DepthBinding.VcBatchBindingAnyDepth | crates/merkle/src/lib.rs:483-489 | the same against a vector commitment and its slots |
| VcBatch.AliasedEntryIgnored | crates/merkle/src/lib.rs:458-458 | an entry anywhere in the batch whose slot is named again later never influences the verdict |
| SumhashCore.ComputeSubsetSum | crates/sumhash/src/lib.rs:51-58 | the wrapping masked loop is the sum, modulo 2^64, of the columns selected by the set bits |
| SumhashCore.MaskSelects | crates/sumhash/src/lib.rs:51-58 | AND with the wrapping negation of a bit keeps the column or clears it |
| SumhashCore.DotProductWholeByte | crates/sumhash/src/lib.rs:37-58 | eight steps of the bit-matrix product over one input byte add that byte's subset sum |
| SumhashTable.IndexInjective | crates/sumhash/src/lib.rs:128-140 | different (position, byte value, row) triples have different table slots |
| SumhashTable.UnpackIsByteColumns | crates/sumhash/src/lib.rs:37-43 | the stream block read for (row, position) unpacks to the eight matrix columns of that byte |
| SumhashTable.BuildTable | crates/sumhash/src/lib.rs:96-147 | reading the stream once, row-outer and position-inner, leaves in every slot the subset sum of its byte over its columns |
| SumhashTable.CompressInto | crates/sumhash/src/lib.rs:153-183 | accumulating table entries gives, in every row, the product of the matrix with all bits of state bytes then message bytes, modulo 2^64 |
| MatrixProduct.CompressIsProduct | crates/sumhash/src/lib.rs:96-183 | every row of the next chaining value is, modulo 2^64, the sum of the stream's consecutive words for that row over the set bits of the lanes and then of the block, least significant bit first |
| MatrixProduct.Sumhash512Parameters | crates/sumhash/src/lib.rs:117-125 | the Sumhash512 matrix has 8 rows of 1024 words from the stream seeded with 64, 8 and 1024 as 16-bit words and "Algorand" |
| MatrixProduct.DigestFolds | crates/sumhash/src/lib.rs:235-363 | a digest starts from zero lanes, compresses the first padded block and goes on with the rest |
| MerkleDamgard.PaddedLayout | crates/sumhash/src/lib.rs:333-358 | the padded message is message, a byte 1, zeros, the number of message bits as a little-endian word and a zero word, in the fewest whole blocks |
| MerkleDamgard.FoldAppend | crates/sumhash/src/lib.rs:256-310 | folding whole blocks and then more is folding their concatenation |
| Sumhash.Sumhash.constructor | crates/sumhash/src/lib.rs:235-246 | a fresh hasher has been fed nothing |
| Sumhash.Sumhash.Update | crates/sumhash/src/lib.rs:256-310 | feeding data appends it to everything fed before, whatever the chunking and whatever lies in the buffers |
| Sumhash.Sumhash.Reset | crates/sumhash/src/lib.rs:313-318 | after a reset the hasher is as if nothing had been fed |
| Sumhash.Sumhash.PadBuffer | crates/sumhash/src/lib.rs:333-358 | the sentinel and zeros are the padding of the whole message in both branches, the overflow block included |
| Sumhash.Sumhash.PadWithin | crates/sumhash/src/lib.rs:333-358 | where sentinel and length fit, the block ends in the padding of the whole message |
| Sumhash.Sumhash.PadAcross | crates/sumhash/src/lib.rs:333-358 | where they do not, an extra block is compressed and the rest of the padding starts the next |
| Sumhash.Sumhash.Finalize | crates/sumhash/src/lib.rs:333-363 | the output is the one-shot digest of everything fed: padded as stated above, bit length included, and folded |
| Sumhash.Sumhash.FinalizeReset | crates/merkle/src/lib.rs:146-151 | the same digest, and the hasher is fresh again |
| Sumhash.Sumhash.HashObj | crates/merkle/src/lib.rs:180-183 | on a shared hasher, hashing an object fed in any pieces equals the pure digest of their concatenation |
| Sumhash.Digest512 | crates/sumhash/src/lib.rs:412-418 | one-pass digest equals the pure hash function used by the trees |
| Sumhash.Sumhash512Valid | crates/sumhash/src/lib.rs:356-363 | every digest has 64 bytes |
| MerkleDamgard.EqualLengthReduction | crates/sumhash/src/lib.rs:333-363 | equal folds of equally many blocks have equal starts and blocks, or the two chains contain different compression inputs with one output |
| MerkleDamgard.CollisionReduction | crates/sumhash/src/lib.rs:333-363 | different messages below 2^61 bytes with equal digests yield, in their own chains, two different compression inputs with one output |
| Sumhash.CollisionReachesCompression | crates/sumhash/src/lib.rs:333-363 | every collision that a tree theorem names is one of the compression function on links of the two chains |
| Wire.Skip | crates/state-proof/src/codec/msgpack.rs:333-373 | terminates on arbitrary bytes: each success consumes at least one byte |
| Wire.SkipExtends | crates/state-proof/src/codec/msgpack.rs:333-373 | more input after a skipped value changes nothing, and an input that only ran out may go on |
| Wire.UintRoundTrip | crates/state-proof/src/codec/msgpack.rs:301-311 | `read_uint` inverts `write_uint` for every 64-bit value, whatever follows |
| Wire.UintShortest | crates/state-proof/src/codec/msgpack.rs:30-38 | no string that `read_uint` accepts for a value is shorter than the one written |
| Wire.StrShortest | crates/state-proof/src/codec/msgpack.rs:41-49 | no accepted string header of a length is shorter than the one written |
| Wire.BinShortest | crates/state-proof/src/codec/msgpack.rs:52-60 | the same among the binary headers |
| Wire.HeaderShortest | crates/state-proof/src/codec/msgpack.rs:62-78 | the same for map and array headers |
| Wire.StrRoundTrip | crates/state-proof/src/codec/msgpack.rs:288-298 | `read_str` and `skip` both invert `write_str` |
| Utf8Text.Utf8Iff | crates/state-proof/src/codec/msgpack.rs:288-298 | a string is accepted if and only if it is the UTF-8 encoding of Unicode scalar values, surrogates excluded |
| Wire.BinRoundTrip | crates/state-proof/src/codec/msgpack.rs:314-328 | `read_bin` inverts `write_bin` for lengths in format range |
| Wire.HeaderRoundTrip | crates/state-proof/src/codec/msgpack.rs:266-285 | map and array lengths survive their headers |
| Wire.ReadUintConforms | crates/state-proof/src/codec/msgpack.rs:301-311 | where `read_uint` succeeds `skip` stops at the same place, and more input changes nothing |
| Wire.ReadStrConforms | crates/state-proof/src/codec/msgpack.rs:288-298 | the same for strings |
| Wire.ReadBinConforms | crates/state-proof/src/codec/msgpack.rs:314-328 | the same for binaries, old raw headers included |
| Wire.HeadersSkip | crates/state-proof/src/codec/msgpack.rs:337-369 | `skip` on a map or array is skipping as many values as the header announces |
| WireValues.SkipLandsBehind | crates/state-proof/src/codec/msgpack.rs:333-373 | for every value in every MessagePack format, numbers, floats, extensions, nil and booleans included and nested in maps and arrays of every header, `skip` lands exactly behind its bytes, which are its own tag and payload |
| WireValues.SkipIff | crates/state-proof/src/codec/msgpack.rs:333-373 | and `skip` succeeds on nothing but such values |
| WireValues.SkipTruncated | crates/state-proof/src/codec/msgpack.rs:232-245 | a value cut off anywhere is reported as the end of the input |
| WireReadings.UintMeans | crates/state-proof/src/codec/msgpack.rs:301-311 | on every value: unsigned integers of each width give their number, anything else is a type error with its first byte |
| WireReadings.StrMeans | crates/state-proof/src/codec/msgpack.rs:288-298 | on every value: the bytes of a string of each width if they are UTF-8, an encoding error if not, a type error for anything else |
| WireReadings.BinMeans | crates/state-proof/src/codec/msgpack.rs:314-328 | on every value: the bytes of a binary of each width and of all strings but those with an 8-bit length, a type error for anything else |
| WireReadings.MapLenMeans | crates/state-proof/src/codec/msgpack.rs:266-274 | on every value: the number of entries of a map, with the reader in front of the first, a type error for anything else |
| WireReadings.ArrayLenMeans | crates/state-proof/src/codec/msgpack.rs:277-285 | the same for arrays |
| WireReadings.MapMeans | crates/state-proof/src/codec/msgpack.rs:266-298 | a record decoder on any map, whatever the order, number and format of its fields, yields the record of all of them or the first fault, if its step does so for one field |
| PackEncoder.SortAscending | crates/state-proof/src/codec/msgpack.rs:120-120 | sorting leaves the keys ascending |
| PackEncoder.KeyLeIsTotalOrder | crates/state-proof/src/codec/msgpack.rs:120-120 | the byte-wise order on keys is total, so the sorted order of distinct keys is unique |
| PackEncoder.LexLeIff | crates/state-proof/src/codec/msgpack.rs:120-120 | the key order is byte-wise: one key is the beginning of the other or smaller where they first differ |
| PackEncoder.NumbersAscend | crates/state-proof/src/codec/msgpack.rs:135-140 | integer keys are written in ascending order |
| Layouts.BuilderOmits | crates/state-proof/src/codec/msgpack.rs:150-200 | the builder never adds a zero or empty field, and adds any other behind those that are there |
| Layouts.UintArrayRead | crates/state-proof/src/codec/msgpack.rs:131-134 | an encoded array of numbers is read back in its order |
| Layouts.EntryRead | crates/state-proof/src/codec/msgpack.rs:135-140 | in an integer-keyed map every number is written in front of its map |
| Canonical.SortThenEncode | crates/state-proof/src/codec/msgpack.rs:120-123 | sorting fields and then encoding them is encoding and then sorting, which the in-place sort relies on |
| Canonical.InsertionOrderIrrelevant | crates/state-proof/src/codec/msgpack.rs:119-144 | maps that are permutations of the same distinct-keyed fields have one encoding |
| Canonical.EntryOrderIrrelevant | crates/state-proof/src/codec/msgpack.rs:135-140 | the same for integer-keyed maps |
| Canonical.SamePackSameBytes | crates/state-proof/src/codec/msgpack.rs:119-144 | maps that differ only in the order of fields, at every level of nesting, have one encoding |
| PackEncoder.EncodedValueIsOneValue | crates/state-proof/src/codec/msgpack.rs:119-144 | for every nested value in format range, `skip` on its encoding lands exactly behind it |
| PackEncoder.EncodedPackIsOneValue | crates/state-proof/src/codec/msgpack.rs:119-144 | the same for every map |
| PackWriter.Buffer.PutUint | crates/state-proof/src/codec/msgpack.rs:30-38 | appends exactly the shortest form |
| PackWriter.Buffer.EncodeInto | crates/state-proof/src/codec/msgpack.rs:119-144 | sorting in place and pushing field by field appends exactly the canonical bytes |
| PackWriter.Encode | crates/state-proof/src/codec/msgpack.rs:204-208 | returns exactly the canonical bytes |
| Layouts.HeaderLayout | crates/state-proof/src/light_block_header.rs:49-76 | the encoding of a header, byte by byte: its count, then "0" and "1" unless all zero, "gh", "r" unless zero, "tc" |
| Layouts.MessageLayout | crates/state-proof/src/stateproof/message.rs:51-61 | the encoding of a message, byte by byte: its count, then "P" unless zero, "b", "f" and "l" unless zero, "v" |
| Layouts.ProofLayout | crates/state-proof/src/codec/proof.rs:39-45 | the encoding of a proof, byte by byte: its count, then "hsh" with type 1, "pth" unless empty, "td" unless zero |
| Reader.Reader.ReadUint | crates/state-proof/src/codec/msgpack.rs:301-311 | the moving cursor returns and consumes what the specification says, with the same errors |
| Reader.Reader.ReadStr | crates/state-proof/src/codec/msgpack.rs:288-298 | the same for strings, UTF-8 errors included |
| Reader.Reader.ReadBin | crates/state-proof/src/codec/msgpack.rs:314-328 | the same for binaries |
| Reader.Reader.Skip | crates/state-proof/src/codec/msgpack.rs:333-373 | the recursive cursor skip is the specified skip |
| Decoders.FieldsConform | crates/state-proof/src/codec/msgpack.rs:266-274 | a field loop whose step agrees with `skip` consumes exactly what skipping key and value per field consumes |
| Decoders.RepeatConforms | crates/state-proof/src/codec/msgpack.rs:277-285 | the same for element loops |
| TypedDecoders.DecodeProofConsumes | crates/state-proof/src/codec/proof.rs:47-81 | where the proof decoder succeeds, `skip` stops at the same place; appending input changes neither result nor stop |
| TypedDecoders.DecodeMssConsumes | crates/state-proof/src/stateproof/mod.rs:226-241 | the same for signatures |
| TypedDecoders.DecodeRevealConsumes | crates/state-proof/src/stateproof/mod.rs:349-362 | the same for reveals |
| TypedDecoders.DecodeStateProofConsumes | crates/state-proof/src/stateproof/mod.rs:422-486 | the same for whole state proofs |
| TypedDecoders.DecodeMessageConsumes | crates/state-proof/src/stateproof/message.rs:80-123 | the same for messages |
| TypedDecoders.DecodeHeaderConsumes | crates/state-proof/src/light_block_header.rs:84-130 | the same for light block headers |
| TypedDecoders.AllDecodersConform | crates/state-proof/src/codec/msgpack.rs:379-393 | all top-level decoders agree with `skip` in this sense |
| TypedDecoders.PrefixFree | crates/state-proof/src/codec/msgpack.rs:387-392 | what `decode` accepts is one whole value; any extension is `TrailingBytes` and any strict prefix an error |
| WireRecords.ProofMeans | crates/state-proof/src/codec/proof.rs:47-81 | on every value: a proof takes its depth from the last "td", its path from the last "pth" and is refused unless the last "hsh" is Sumhash512; errors included |
| WireRecords.PublicKeyMeans | crates/state-proof/src/stateproof/mod.rs:42-63 | a key is the last "k", of 1793 bytes and accepted by the key library, or refused with its error |
| WireRecords.VerifierMeans | crates/state-proof/src/stateproof/mod.rs:118-142 | "cmt" of 64 bytes and "lf" |
| WireRecords.MssMeans | crates/state-proof/src/stateproof/mod.rs:226-241 | "sig", "idx", "prf" and "vkey"; without "sig", the two bytes of an empty signature |
| WireRecords.SigSlotMeans | crates/state-proof/src/stateproof/mod.rs:276-290 | "s" and "l" |
| WireRecords.ParticipantMeans | crates/state-proof/src/stateproof/mod.rs:308-322 | "p" and "w" |
| WireRecords.RevealMeans | crates/state-proof/src/stateproof/mod.rs:349-362 | "s" and "p" |
| WireRecords.StateProofMeans | crates/state-proof/src/stateproof/mod.rs:422-486 | on every value: "c" of 64 bytes, "w" above zero, "S" the signature proof, "P" the participant proof, the low byte of "v", "r" with at most 640 positions in wire order, "pr" with at most 640; the last of each key counts, missing ones have their defaults, unknown keys with any value are ignored, and the first fault is the error |
| WireRecords.MessageMeans | crates/state-proof/src/stateproof/message.rs:80-123 | on every value: "P", "b" of 32 bytes, "f", "l" and "v" of 64 bytes |
| WireRecords.HeaderMeans | crates/state-proof/src/light_block_header.rs:84-130 | on every value: "0", "1", "gh", "r" and "tc", digests of 32 bytes |
| WireRecords.StateProofDecodedIff | crates/state-proof/src/stateproof/mod.rs:415-486 | over all byte strings: decoding yields this state proof if and only if the bytes are one value with this meaning |
| WireRecords.MessageDecodedIff | crates/state-proof/src/stateproof/message.rs:45-123 | the same for messages |
| WireRecords.HeaderDecodedIff | crates/state-proof/src/light_block_header.rs:78-130 | the same for light block headers |
| WireReference.StateProofRoundTrip | crates/state-proof/src/stateproof/mod.rs:422-486 | for every state proof within the decoder's bounds, decoding its reference encoding, fields under keys written out as bytes, gives it back and leaves what follows |
| WireReference.NestedRoundTrips | crates/state-proof/src/stateproof/mod.rs:118-362 | the same for reveals, signature slots, signatures, participants, verifiers and proofs |
| DecodeLoops.DecodeHashFactoryFrom | crates/state-proof/src/codec/proof.rs:21-33 | the loop over the reader computes the specified decoder: value, stop and error |
| DecodeLoops.DecodeProofFrom | crates/state-proof/src/codec/proof.rs:47-81 | the same, the hash-type check included |
| DecodeLoops.DecodePublicKeyFrom | crates/state-proof/src/stateproof/mod.rs:42-61 | the same, size and key checks included |
| DecodeLoops.DecodeVerifierFrom | crates/state-proof/src/stateproof/mod.rs:118-138 | the same |
| DecodeLoops.DecodeMssFrom | crates/state-proof/src/stateproof/mod.rs:226-241 | the same |
| DecodeLoops.DecodeSigSlotFrom | crates/state-proof/src/stateproof/mod.rs:276-289 | the same |
| DecodeLoops.DecodeParticipantFrom | crates/state-proof/src/stateproof/mod.rs:308-321 | the same |
| DecodeLoops.DecodeRevealFrom | crates/state-proof/src/stateproof/mod.rs:349-362 | the same |
| DecodeLoops.DecodeStateProofFrom | crates/state-proof/src/stateproof/mod.rs:422-486 | the same, with the bound of 640 on reveals and positions and the zero-weight check |
| DecodeLoops.DecodeMessageFrom | crates/state-proof/src/stateproof/message.rs:80-123 | the same |
| DecodeLoops.DecodeHeaderFrom | crates/state-proof/src/light_block_header.rs:84-130 | the same |
| DecodeLoops.StateProofFromMsgpack | crates/state-proof/src/stateproof/mod.rs:415-419 | `decode` on a whole byte string, trailing bytes refused |
| DecodeLoops.MessageFromMsgpack | crates/state-proof/src/stateproof/message.rs:44-48 | the same for messages |
| DecodeLoops.HeaderFromMsgpack | crates/state-proof/src/light_block_header.rs:78-81 | the same for headers |
| RoundTrip.PackDecodes | crates/state-proof/src/codec/msgpack.rs:119-144 | decoding any encoded map, however its fields were added, applies exactly those fields, in key order, to the initial record |
| RoundTrip.LightBlockHeaderRoundTrip | crates/state-proof/src/light_block_header.rs:49-130 | decoding the encoding of any header gives it back, omitted zero fields included |
| RoundTrip.HeaderEncodingInjective | crates/state-proof/src/light_block_header.rs:49-76 | different headers have different encodings |
| RoundTrip.MessageRoundTrip | crates/state-proof/src/stateproof/message.rs:51-123 | decoding the encoding of any message gives it back |
| RoundTrip.MessageEncodingInjective | crates/state-proof/src/stateproof/message.rs:51-61 | different messages have different encodings |
| RoundTrip.ProofRoundTrip | crates/state-proof/src/codec/proof.rs:39-81 | decoding the encoding of any Sumhash512 proof of any path length in format range gives it back |
| RoundTrip.HashFactoryRoundTrip | crates/state-proof/src/codec/proof.rs:12-33 | every hash type survives encoding, the omitted tag zero included |
| Shapes.DecodedStateProofValid | crates/state-proof/src/stateproof/mod.rs:422-486 | every state proof decoded from whatever bytes has the lengths that the program's types fix, so verification can be run on it |
| Shapes.DecodedMessageValid | crates/state-proof/src/stateproof/message.rs:80-123 | the same for messages |
| Shapes.DecodedHeaderValid | crates/state-proof/src/light_block_header.rs:84-130 | the same for light block headers |
| Coin.SeedBytesInjective | crates/state-proof/src/stateproof/coin.rs:44-55 | different seeds are different byte strings |
| Coin.SeedToBytes | crates/state-proof/src/stateproof/coin.rs:44-55 | the buffer filled at a moving position is that byte string, completely |
| Layouts.SeedLayout | crates/state-proof/src/stateproof/coin.rs:44-55 | the stream is that of the seed whose bytes are, at their offsets, "spc", version zero, participant commitment, threshold, signature commitment, signed weight, and the digest of "spm" and the encoded message |
| Coin.UniformCoins | crates/state-proof/src/stateproof/coin.rs:95-111 | each value below the weight has exactly floor(2^64 / w) accepted words |
| Coin.MostSamplesAccepted | crates/state-proof/src/stateproof/coin.rs:95-99 | more than half of all words are accepted for every weight |
| Coin.CoinsAreAcceptedWords | crates/state-proof/src/stateproof/coin.rs:102-111 | a word is behind the i-th coin if and only if it is acceptable and exactly i acceptable words come before it; there is no i-th coin if there is no such word |
| Coin.CoinCongruent | crates/state-proof/src/stateproof/coin.rs:102-111 | a coin is below the weight and congruent to its word modulo the weight |
| Coin.CoinIff | crates/state-proof/src/stateproof/coin.rs:102-111 | the i-th coin is v if and only if its word is one of the floor(2^64 / w) words that stand for v |
| Coin.EveryCoinIff | crates/state-proof/src/stateproof/coin.rs:102-111 | the stream yields every coin if and only if acceptable words never run out |
| Coin.CoinGenerator.constructor | crates/state-proof/src/stateproof/coin.rs:78-99 | over any stream: seeded by the seed bytes, no coin drawn, threshold the largest multiple of the weight |
| Coin.CoinGenerator.NextCoin | crates/state-proof/src/stateproof/coin.rs:102-111 | if the stream has another coin, returns it, below the weight and congruent to its word, and advances by one; otherwise the loop does not end |
| Leaves.ParticipantPreimageInjective | crates/state-proof/src/stateproof/verify.rs:93-101 | the leaf preimage determines the whole participant |
| Layouts.ParticipantLayout | crates/state-proof/src/stateproof/verify.rs:93-101 | "spp", weight, key lifetime and commitment at their offsets, numbers little-endian |
| Leaves.KeyEpochStart | crates/state-proof/src/stateproof/mod.rs:106-109 | the last multiple of the key lifetime not after the round; the round itself for lifetime zero |
| Layouts.KeyLayout | crates/state-proof/src/stateproof/verify.rs:124-131 | "KP", suite zero, start of the epoch and key at their offsets |
| KeyTree.KeyIsRegistered | crates/state-proof/src/stateproof/verify.rs:170-182 | an accepted key, whatever the declared depth and path length of its proof, is one that the participant registered for the epoch that contains the round, in the slot at which the climb starts, or two hashed inputs collide |
| Leaves.MssToBytes | crates/state-proof/src/stateproof/mod.rs:188-218 | the zeroed buffer, moving position and offset path copy give the stated 4366-byte layout, or the stated failure |
| Layouts.MssLayout | crates/state-proof/src/stateproof/mod.rs:188-218 | suite zero, constant-time signature, key, index and depth at their offsets in 4366 bytes, then the path area |
| Layouts.PathLayout | crates/state-proof/src/stateproof/mod.rs:207-216 | in the path area every path entry lies at its offset behind 16 - depth zero entries, and every other byte is zero |
| Layouts.SlotLayout | crates/state-proof/src/stateproof/verify.rs:143-155 | a slot whose signature has at most two bytes is "MB"; any other is "sps", range start and the fixed form of its signature |
| Leaves.FixedFormInjective | crates/state-proof/src/stateproof/mod.rs:188-218 | that layout determines constant-time signature, key, index, depth and path, but for zero digests behind a path that is shorter than its depth |
| Leaves.TrailingZeroLost | crates/state-proof/src/stateproof/mod.rs:207-216 | which really are lost: at depth 1 the empty path and the path of one zero digest have one form |
| Leaves.SlotPreimageBinding | crates/state-proof/src/stateproof/verify.rs:143-155 | two slots have one leaf preimage if and only if both are empty, or both are signed and agree in range start, constant-time signature, key, index, depth and, up to trailing zero digests, path; for paths as long as their depth that is the whole proof |
| Leaves.LeavesAreNoNodes | crates/state-proof/src/stateproof/verify.rs:93-155 | no leaf preimage starts with the tag of inner nodes, which is what binds the depth |
| Leaves.DomainsSeparate | crates/state-proof/src/stateproof/verify.rs:93-155 | participant, key, slot, node and bottom-leaf preimages never coincide |
| VerifierRun.RunScheme | crates/state-proof/src/stateproof/verify.rs:162-188 | the two-step key and signature check with its two errors in order, and the panic of an overflow-checked build above depth 64 |
| VerifierRun.RunOpenings | crates/state-proof/src/stateproof/verify.rs:258-276 | the per-reveal loop with its early returns computes the specified leaves in wire order or the specified first failure |
| VerifierRun.RunCoins | crates/state-proof/src/stateproof/verify.rs:305-320 | the coin loop over the advancing generator is the specified sequence of range checks, whenever that sequence ends |
| VerifierRun.VerifyStateProof | crates/state-proof/src/stateproof/verify.rs:197-323 | the whole procedure, early returns included, is the specified verdict, whenever it returns; on success the anchor has the message's commitment and threshold |
| Verifier.RevealMapKeys | crates/state-proof/src/stateproof/verify.rs:243-247 | the size comparison detects exactly the duplicate positions |
| Verifier.CheckOpeningsIff | crates/state-proof/src/stateproof/verify.rs:258-276 | the reveal loop succeeds exactly if every opening passes, and then yields every opening's two leaves |
| Verifier.CheckCoinsIff | crates/state-proof/src/stateproof/verify.rs:305-320 | the coin loop succeeds exactly if every position has a coin and an opening there with the coin in its non-overflowing range |
| Verifier.CheckProofsIff | crates/state-proof/src/stateproof/verify.rs:197-291 | everything before the coins passes if and only if both depths are at most 20, the weight is strong enough, positions are distinct, all openings pass and both batches are accepted |
| Verifier.VerifyIff | crates/state-proof/src/stateproof/verify.rs:197-323 | in both kinds of build, acceptance if and only if the declarative conditions hold together, and then the anchor handed on has the commitment to the next participants and the threshold of the accepted message |
| Outcomes.RefusedParameters | crates/state-proof/src/stateproof/verify.rs:210-247 | depths above 20, then a weight that is too low, then too few coins for 256 bits of strength, then repeated positions: the first of these that holds is the verdict, and the parameters pass if none does |
| Outcomes.FirstBadOpening | crates/state-proof/src/stateproof/verify.rs:258-276 | the reveal loop ends the way its first bad opening ends |
| Outcomes.RefusedOpening | crates/state-proof/src/stateproof/verify.rs:162-188 | the verdict of a whole verification on its first opening that does not pass: salt version, index width, key proof, signature, conversion and layout, in this order |
| Outcomes.RefusedTrees | crates/state-proof/src/stateproof/verify.rs:278-291 | behind passing openings a failing signature batch is the verdict, then a failing participant batch |
| Outcomes.FirstBadCoin | crates/state-proof/src/stateproof/verify.rs:305-320 | the coin loop ends the way its first uncovered coin ends |
| Outcomes.RefusedCoin | crates/state-proof/src/stateproof/verify.rs:305-320 | the verdict of a whole verification whose first uncovered coin is the k-th: position not opened, range past 2^64 even if it holds the coin, coin outside a range, or no return because the stream has no such coin |
| Outcomes.VerifyAbortsIff | crates/state-proof/src/stateproof/mod.rs:207-215 | verification aborts exactly when the parameters are in order and, behind only passing openings, a signature proof overflows the index width (in a checked build) or its path outgrows the fixed layout |
| Outcomes.SafeNeverAborts | crates/state-proof/src/stateproof/mod.rs:207-215 | verification does not abort if every signed opening has a depth of at most 64 and a path that the layout holds |
| Witness.NeverAbortsIff | crates/state-proof/src/stateproof/mod.rs:207-215 | exactly the unsigned openings and those that meet that condition are safe in every environment |
| Witness.VerifyCanAbort | crates/state-proof/src/stateproof/mod.rs:207-215 | an input on which verification aborts: a valid signature whose path has one entry more than its depth |
| Outcomes.VerifyEndlessIff | crates/state-proof/src/stateproof/coin.rs:102-111 | verification fails to return exactly when all checks before hold and a position that is opened asks the stream for a coin it lacks |
| Witness.VerifyCanHang | crates/state-proof/src/stateproof/coin.rs:102-111 | an input on which verification never returns although all openings are unsigned: weight 3 and a stream of bytes 255 |
| Outcomes.VerifyReturnsIff | crates/state-proof/src/stateproof/verify.rs:197-323 | verification returns a verdict if and only if neither happens: an opening aborts behind only passing ones, or an opened position asks, behind only covered coins, for a coin that the stream lacks |
| Outcomes.SafeReturns | crates/state-proof/src/stateproof/verify.rs:197-323 | it does if all opened signature proofs are safe and the stream never runs out of acceptable words |
| Soundness.PositionsBelowCapacity | crates/state-proof/src/stateproof/verify.rs:258-291 | distinct positions below 2^depth address different slots |
| Soundness.UnaliasedIff | crates/state-proof/src/stateproof/verify.rs:258-291 | no two openings share a slot if and only if every opening is the last of its slot |
| Soundness.LastAuthentic | crates/state-proof/src/stateproof/verify.rs:286-291 | an accepted proof declares the depth of the committed roster's tree, and in every slot that it opens the last opening is the committed participant; or a collision between verifier and commitment inputs is exposed |
| Soundness.StepSoundness | crates/state-proof/src/stateproof/verify.rs:197-323 | an accepted step establishes, or exposes a collision: the declared depth is that of the committed roster's tree, the last opening of each slot is the committed participant, each signature is by a key under the opened participant over this message with the declared salt version, each coin lies in the range of an opening at its position, in the committed range if that opening is the last of its slot |
| Soundness.EstablishedForAll | crates/state-proof/src/stateproof/verify.rs:197-323 | if no two openings share a slot, this holds of every opening and of every coin |
| Soundness.LastPinned | crates/state-proof/src/stateproof/verify.rs:278-283 | against a signature commitment made over a vector of slots, an accepted proof declares the depth of its tree, and the last opening of every slot is the one committed there, range start and signature included (up to trailing zero digests of a key path), and empty past the end; or a collision |
| Soundness.CoinSeedBinding | crates/state-proof/src/stateproof/verify.rs:297-305 | two verifications seed their coins alike only if anchor, signature commitment, signed weight and message agree, or two message hash inputs collide |
| Soundness.ChainSoundness | crates/state-proof/src/stateproof/message.rs:191-199 | in every chained run each trusted commitment and threshold is that of the message accepted just before; so the roster of a later step is the one behind the commitment in that message, its signed weight outweighs the threshold in that message by 256 bits for its number of coins, and every step establishes the above or exposes a collision |
| Aliasing.ShadowedOpeningAccepted | crates/state-proof/src/stateproof/verify.rs:243-291 | in every environment, an opening put in front of an accepted proof at a new position of an opened slot is accepted too, whatever participant it names, if it passes on its own |
| Aliasing.AcceptedButNotAuthentic | crates/state-proof/src/stateproof/verify.rs:243-291 | an input that fails authenticity: the slot of position p opened once more at p + 2^d for a participant that is not the committed one |
| Aliasing.AuthenticityForcedIff | crates/state-proof/src/stateproof/verify.rs:243-291 | over rosters of a given tree depth, and whatever depth the proof declares, acceptance with openings at given distinct positions forces every opened participant to be the committed one (or a collision) if and only if no two of the positions agree in their `depth` low bits, or the depth is above the 20 that a proof may declare |
| Signers.SignersRegistered | crates/state-proof/src/stateproof/verify.rs:162-188 | each signature in the last opening of a slot is by a key that the member there registered for the epoch of the attested round, whatever the shape of its key proof, and covers the message; or inputs of the participant tree or of a key tree collide |
| Completeness.RangesPartition | crates/state-proof/src/stateproof/verify.rs:305-320 | the ranges of signed slots partition the coins below the total signed weight: exactly one holder per coin and no range past the total |
| Completeness.AssembledProofAccepted | crates/state-proof/src/stateproof/verify.rs:197-323 | a proof assembled from vector commitments over members and slots, holders of the coins and reference batch paths is accepted with the next anchor if its signed openings pass |
| Completeness.HonestProofAccepted | crates/state-proof/src/stateproof/verify.rs:197-323 | such a proof, signed with keys that the members registered, is accepted with the next anchor |
| Witness.HypothesesCanBeMet | crates/state-proof/src/stateproof/verify.rs:197-323 | for any two hash functions in either build there is an environment with an honest proof that is accepted and meets every hypothesis of the soundness theorems: committed roster, no shared slots, registered keys and committed signature slots; so none is vacuous |
| Completeness.HonestSignatureHolds | crates/state-proof/src/stateproof/verify.rs:162-188 | the key proof that a member's own key tree yields passes the key check and fits the fixed layout |
| Reduction.ForgeryBreaksCompression | crates/state-proof/src/stateproof/verify.rs:197-323 | with Sumhash512 as the tree hash, an accepted proof over a committed roster establishes the above, or two of the hashed inputs lead, by walking their block chains, to two different compression inputs with one output |
| Reduction.WrongSignerBreaksCompression | crates/state-proof/src/stateproof/verify.rs:162-188 | likewise each signature in the last opening of a slot is by a registered key of the member there, or inputs of the participant tree or of a key tree lead to such a collision |
| Reduction.SwappedSlotBreaksCompression | crates/state-proof/src/stateproof/verify.rs:278-283 | likewise the last opening of every slot is what the signature commitment holds there, or inputs of the signature tree lead to such a collision |
| Reduction.WireForgeryBreaksCompression | crates/state-proof/src/stateproof/mod.rs:422-486 | from bytes: whatever decodes to an accepted proof over a committed roster establishes the above or leads to such a collision, without further conditions on the proof |
| Reduction.BothSidesShort | crates/sumhash/src/lib.rs:256-266 | every input hashed on either side of the participant check is below the input cap, so the reduction applies to it |
| LightClient.VerifyBlockHeaderCommitment | crates/state-proof/src/light_block_header.rs:148-158 | panics exactly in an overflow-checked build with a depth above 64; otherwise accepts exactly if the tagged header encoding leads to the commitment from the reversed index |
| LightClient.VerifyTxnCommitment | crates/state-proof/src/light_block_header.rs:173-186 | the same for tag, transaction digest and outcome digest |
| LightClient.HeaderPreimageInjective | crates/state-proof/src/light_block_header.rs:132-137 | the leaf preimage determines the header |
| Layouts.LightClientLayout | crates/state-proof/src/light_block_header.rs:132-182 | "TL", transaction digest and outcome digest at their offsets; "B256" and the encoded header |
| LightClient.LeafDomainsSeparate | crates/state-proof/src/light_block_header.rs:132-182 | header, transaction, node and filler preimages never coincide |
| LightClient.SamePlaceBinding | crates/state-proof/src/light_block_header.rs:148-186 | two accepted inclusions under one commitment whose climbs start at the same places are equal in header, transaction digests and paths, or collide |
| LightClient.EndToEndBinding | crates/state-proof/src/light_block_header.rs:148-186 | two accepted inclusions under one commitment for the same indices, whose declared depths are the lengths of their paths, are equal in everything, or two hashed inputs collide |
| LightClient.TwoHeadersOneIndex | crates/state-proof/src/light_block_header.rs:148-158 | without that, two different headers are accepted for one index under one commitment, whatever the hash |
| VcOpening.ProofsAgree | crates/merkle/src/lib.rs:433-443 | two accepted proofs whose climbs start at one place, of equal path length but of any declared depths and indices, have one leaf and one path, or collide |
| VcOpening.WellFormedProofsAgree | crates/merkle/src/lib.rs:433-443 | two accepted proofs of one index whose declared depths are the lengths of their paths, whatever these are, are one proof of one leaf, or collide |
| VcOpening.PathLengthForced | crates/merkle/src/lib.rs:433-443 | a proof with a path of another length than the depth of the committed vector exposes a collision |
| VcOpening.ProvenIsCommitted | crates/merkle/src/lib.rs:433-443 | an accepted proof of any declared depth and path length has a path of the vector's depth and proves what the vector holds in the slot at which its climb starts, along the tree's own path, or exposes a collision |
| VcOpening.ProvenAtIndex | crates/merkle/src/lib.rs:433-443 | if the climb starts where the index belongs, that slot is the one of the index |
| IndexBinding.WrongIndexAccepted | crates/merkle/src/lib.rs:433-443 | an input that fails index binding, whatever the hash: over the vector [a, b] the leaf a is accepted at index 1, where the vector holds b, with a declared depth of 0 and the one path entry digest(b) |
| IndexBinding.LargerIndexAccepted | crates/merkle/src/lib.rs:206-208 | and another: a proof for index i of depth d is accepted for i + 2^d as well |
| IndexBinding.BindsIndexIff | crates/merkle/src/lib.rs:433-443 | accepted proofs of a declared depth and a path length below 64 force the leaf that the vector holds in the slot of a given index (or a collision) if and only if depth and length put the index at the same place |
| IndexBinding.BindsExactlyIff | crates/merkle/src/lib.rs:433-443 | they force the leaf that the vector holds at the very index, the filler past its end, if and only if in addition the index is below 2^length |
| IndexBinding.BindsEveryIndexIff | crates/merkle/src/lib.rs:433-443 | accepted proofs of a declared depth of at most 64 and a path length below 64 bind the slot of every index if and only if the path is empty or the depth is its length |
| LightClient.AcceptedIsGenuine | crates/state-proof/src/light_block_header.rs:148-186 | an accepted inclusion of any shape names a header of the interval and a transaction of that block, those in the slots at which its climbs start, or exposes a collision; if both declared depths are the path lengths these are the slots of its indices, and for indices below 2^depth the entries at the indices themselves |
| LightClient.GenuineIsAccepted | crates/state-proof/src/light_block_header.rs:148-186 | the proofs of the two trees for a genuine header and transaction pass both checks |
| LightClient.IndexedInsideIff | crates/state-proof/src/stateproof/message.rs:72-77 | exactly the rounds of the interval have an index if and only if the interval has 256 rounds (or is cut off at the largest number) |
| LightClient.IndexedOutside | crates/state-proof/src/stateproof/message.rs:72-77 | an input on which that fails: the round behind the end of a shorter interval |

## Left out

- Leaves.FixedFormInjective: does not tell a path from the same path with zero digests behind it, because the layout
  does not (Leaves.TrailingZeroLost); for paths as long as their depth nothing is lost.
- VcOpening.ProvenIsCommitted: takes leaves whose inputs do not start with the tag of inner nodes, which all leaf
  kinds of the program meet; without it depth is not bound by the code either.
- SHAKE256, SHA-256, Falcon and the f64 logarithm are parameters (`Xof`, `HashFn`, `Falcon`, `Env.ln`); of
  the logarithm only that it fails exactly at zero is used.
- VcBatch.VcBatchBinding: says nothing about the earlier of two entries for one slot, because the code ignores
  them; VcBatch.AliasedEntryIgnored proves that it does.
- Soundness.StepSoundness: for the same reason binds the last opening of every slot, and all of them only under
  the condition stated in the findings. Of an opening with an empty slot it says nothing about signatures,
  because the code checks none.
- Soundness.LastPinned: does not bind the range start of an empty slot, which is not hashed.
- Coin.CoinGenerator.NextCoin: takes as precondition that the stream has another coin; without one the program
  does not return.
- VerifierRun.VerifyStateProof: takes as precondition that verification returns; Outcomes.VerifyEndlessIff says
  exactly when it does not.
- Canonical.InsertionOrderIrrelevant: needs distinct keys; the unstable sort leaves the order of equal keys open.
- Reader.Reader.Skip: the position of the reader after an error is not specified, since every caller stops;
  stack depth of the recursion is not modelled.
- VcTree.BuildVcTree: takes vectors of at most 2^63 leaves; longer ones do not fit into memory.
- Sumhash.Sumhash.Update: takes the input cap below 2^61 bytes, which the program asserts, as a precondition.
- `usize` has 64 bits; 32-bit targets are not modelled. Allocation never fails.
- A decoded proof carries no hash-type field: it is always the Sumhash512 one, by the decoder's own check.
- The parameter assertions of the hasher's constructor are preconditions; the fixed Sumhash512 parameters meet them.
- `Display`, `Debug`, `Clone`, serde helpers and fixtures: no property beyond their text.
