# sg32: a verified model of the shred light node

sg32 receives erasure-coded shreds of Solana blocks, recovers the leader's data from any sufficient
subset, finds the entries and transactions in the recovered bytes, and serves them with Merkle
proofs that a client checks for itself. A small gossip client feeds it peers. This project models
that path in Dafny and proves what it is for.

`dafny verify dfyconfig.toml` checks everything.

| file | what it models | main results |
|---|---|---|
| `Gf256.dfy` | the byte field, table by table (`gf256.rs`) | the table product is the polynomial product modulo 0x11D; field laws |
| `LinearAlgebra.dfy`, `ReedSolomon.dfy` | matrix inversion in place, Cauchy matrix, encoder, decoder (`reed_solomon.rs`) | Gauss-Jordan fails exactly on singular matrices and else gives a two-sided inverse |
| `AnyKOfN.dfy` | which row selections can be decoded | any k of n shreds decode exactly when `num_code == 0` or `num_code <= num_data <= 128`; what decode does on everything that encode accepts |
| `FecBatch.dfy` | the batch object (`fec_batch.rs`) | every run of honest arrivals recovers from `num_data` distinct shreds on, and nothing before |
| `FecSizes.dfy` | batches that are not of their set's size | for which sizes every recovery is the sender's bytes |
| `CompactLength.dfy` | compact lengths (`short_vec.rs`), little-endian integers | round trips on all 64-bit lengths |
| `Deshredder.dfy`, `EntryStream.dfy` | the cursor parser (`deshredder.rs`) and its wire layout as a printer | print/parse round trip under any cut into payloads; faithfulness of partial parses; self-delimiting transactions |
| `TransactionLayout.dfy` | the layout of a transaction (`deshredder.rs`) as a grammar | the parser measures exactly the transactions of that layout |
| `Merkle.dfy`, `SdkVerifier.dfy` | prover and verifiers (`merkle_prover.rs`, `sdk/src/index.ts`) | completeness; soundness by extracting a hash collision, for proofs of every length; the client agrees with the server |
| `RingBuffer.dfy` | the hot cache (`ring_buffer.rs`) | exactly which lookups of the unbounded map the ring answers |
| `Pipeline.dfy`, `PipelineSafety.dfy` | `process_shred` and `load_slot_data` over batches, ring and disk | hot/cold agreement over every run; for an honest set or slot among any other traffic, exactly what is pending, stored and served |
| `ParentSlots.dfy` | the parent slots that batches and cached blocks carry | which shred of a set decides it, over every run |
| `EndToEnd.dfy` | runs from the leader's entries to the client | a set sent in full is served and its proofs accepted; which set of a slot is kept; blocks without transactions |
| `Options.dfy`, `Arithmetic.dfy` | shared helpers | |
| `Gossip.dfy` | partition masks, packet budget, rotation (`crds_filter.rs`, `pull_request.rs`, `lib.rs`) | over every run of the loop, of any 2^B requests to a peer exactly one asks for a given hash |

## How the model is built

- Bytes are 8-bit vectors. The two tables are balanced decision trees over the index; their leaves,
  read left to right, are the table's entries. A cast to `u8` is `U8`.
- A matrix handed over between functions is a sequence of rows. Inversion works in place on a
  two-dimensional array, row operation by row operation. One invariant carries it: the augmented
  matrix keeps the kernel of [A | I]. The row operations, the pivot search and the copying loops are
  methods of their own, where the program has them inline; so are the two loops of the decoder.
- The any-k-of-n proof eliminates one point and one column of a Cauchy system at a time, and counts
  the non-zero entries of a kernel vector against the code shreds received.
- The batch, the ring, the receive path and the pull loop are classes. Each has an abstract state,
  each method's `ensures` gives the new state as a function of the old one, and the theorems over
  runs are about those functions. `ReceiveAll` ties the objects to the runs.
- SHA-256 is a parameter: any function from byte strings to 32-byte digests. No result assumes that it
  is injective; soundness returns two inputs that collide.
- Cached blocks keep their entries as values. The program serializes them with bincode and reads
  them back, which the model takes to be an inverse pair. Files are a map from slot to bytes, and
  writes succeed.
- Arithmetic wraps as in an optimized build: `index - fec_set_index` at 32 bits, the window of the
  ring and the pull loop's counter at 64 bits, and the shift of a length's group modulo 64. Other sums of
  positions and lengths do not reach 64 bits.
- Shifts are products with powers of two, and OR is bitwise OR on natural numbers
  (`Arithmetic.Or`); that the shifted parts share no bit is proved where it is used.
- The bincode decoder of one transaction, the random bits of a Bloom filter and the encoder of a pull
  request are parameters, as is the function from a filter's budget to its number of mask bits.

## Where the code and its own text differ

- `gf256.rs` comments work examples with `LOG[25] = 1`; the table has `LOG[25] = 193`, and 25 has
  the logarithm 193, as `Gf256.AlogOfLog` requires. The model follows the table.
- `reed_solomon.rs` promises that any N rows can be inverted. That holds only inside the bound of
  `AnyKOfN.AnyKOfNExactly`: the points are cast to bytes, and outside it some x_i equals some y_j,
  so `gf_inv(0) = 0` enters the matrix.
- `BUILD_LOG.md` says that trailing zeros are trimmed and that the inverse uses Euclid. Neither
  happens; the padding simply follows the announced entries (`EntryStream.DeshredRoundTrip`).
- The comment on `read_shortu16` speaks of one or two bytes; the code reads up to three.
- A block without transactions is refused while it is cached and served once only the disk has it
  (`PipelineSafety.HotColdAgreement`, `EndToEnd.EmptyBlockRefused`, `EndToEnd.EvictedEmptyBlockServed`).
- A data shred does not say how large its set is. When it comes first, the batch gets the default
  32/32; for a set with another number of data shreds the node can then recover something else
  (`PipelineSafety.FirstShredDecides` says for which). The run theorems of the pipeline are about sets
  of 32 data shreds and at most 32 code shreds, in any order.
- `PIPELINE_DESIGN.md` puts the sets of a slot together before it looks for entries. The code deshreds
  each set by itself and keeps the last one that was complete (`PipelineSafety.ServedExactly`,
  `EndToEnd.LaterSetReplaces`).
- `verify` takes proofs of any length, and an entry of 64 bytes can pass for two digests
  (`Merkle.ShorterProofForges`, `Merkle.LongerProofForges`); with no such entry there is no forgery (`Merkle.NoForgery`).
- A transaction and its leaf share an index only as long as no transaction that parses stands behind one
  that does not (`Pipeline.IndexesAgreeExactly`).
- With 64 mask bits the seed loop would stop half way (`Gossip.ReachesAllExactly`).
- Putting the greatest 64-bit slot empties the ring (`RingBuffers.GreatestSlotHidesAll`); without it, and
  only then, the ring does what it is for (`RingBuffers.LatestSlotIsMax`, `RingBuffers.RingIsWindowOfMap`).
- A filter without budget has no items, an infinite number of partitions and a number of mask bits that
  `compute_mask` refuses: a caller that leaves no room in a packet stops the client
  (`Gossip.ZeroBudgetExactly`).

## Model

| member | source | states |
|---|---|---|
| Gf256.AlogStep | crates/dc-tvu/src/gf256.rs:46-63 | each table entry is the one before it multiplied by x, modulo 0x11D |
| Gf256.AlogOfLog | crates/dc-tvu/src/gf256.rs:27-44 | LOG of a non-zero byte is an exponent below 255, and ALOG undoes it |
| Gf256.AlogIsPower | crates/dc-tvu/src/gf256.rs:46-63 | ALOG[k] is k rounds of doubling with reduction, from 1 |
| Gf256.MulIsXtimeN | crates/dc-tvu/src/gf256.rs:89-95 | multiplying by a non-zero b is LOG[b] rounds of doubling with reduction |
| Gf256.MulIsPolyMul | crates/dc-tvu/src/gf256.rs:79-95 | the table product is the schoolbook product of polynomials modulo 0x11D, for all pairs of bytes |
| Gf256.MulComm | crates/dc-tvu/src/gf256.rs:89-95 | the product is commutative |
| Gf256.MulOne | crates/dc-tvu/src/gf256.rs:89-95 | 1 is neutral |
| Gf256.MulAssoc | crates/dc-tvu/src/gf256.rs:89-95 | the product is associative |
| Gf256.MulDistrib | crates/dc-tvu/src/gf256.rs:68-95 | the product distributes over XOR on both sides |
| Gf256.MulInv | crates/dc-tvu/src/gf256.rs:97-111 | `gf_inv` is the inverse of every non-zero byte, on both sides, and is itself non-zero |
| Gf256.MulNonZero | crates/dc-tvu/src/gf256.rs:84-95 | a product is zero exactly when a factor is |
| LinearAlgebra.SwapKeepsKernel | crates/dc-tvu/src/reed_solomon.rs:125 | the row swap keeps the kernel |
| LinearAlgebra.ScaleKeepsKernel | crates/dc-tvu/src/reed_solomon.rs:127-130 | scaling by the pivot's inverse keeps the kernel |
| LinearAlgebra.SubtractKeepsKernel | crates/dc-tvu/src/reed_solomon.rs:132-139 | eliminating with the pivot row keeps the kernel |
| LinearAlgebra.NoPivotIsSingular | crates/dc-tvu/src/reed_solomon.rs:124 | a column without pivot gives a non-zero kernel vector of the input matrix |
| LinearAlgebra.ReducedIsInverse | crates/dc-tvu/src/reed_solomon.rs:110-112 | once the left half is the identity, the right half undoes the input on every vector, from both sides |
| LinearAlgebra.InverseProducts | crates/dc-tvu/src/reed_solomon.rs:110-112 | both products of the inverse and the matrix are the identity matrix |
| ReedSolomon.Augment | crates/dc-tvu/src/reed_solomon.rs:115-121 | lays out [A \| I] |
| ReedSolomon.FindPivot | crates/dc-tvu/src/reed_solomon.rs:124 | the first row at or below the column with a non-zero entry, none if there is none |
| ReedSolomon.SwapRows | crates/dc-tvu/src/reed_solomon.rs:125 | the array holds the two rows exchanged and all others unchanged |
| ReedSolomon.ScaleRowInPlace | crates/dc-tvu/src/reed_solomon.rs:128-130 | the array holds the row scaled and all others unchanged |
| ReedSolomon.SubtractRowInPlace | crates/dc-tvu/src/reed_solomon.rs:135-137 | the array holds the row minus the multiple of the other, all others unchanged |
| ReedSolomon.InstallPivot | crates/dc-tvu/src/reed_solomon.rs:125-130 | the pivot becomes 1; cleared columns and the kernel stay |
| ReedSolomon.ClearColumn | crates/dc-tvu/src/reed_solomon.rs:132-139 | one more column is an identity column; the kernel stays |
| ReedSolomon.CopyRightHalf | crates/dc-tvu/src/reed_solomon.rs:142-147 | the result is the right half of the array |
| ReedSolomon.GfMatrixInvert | crates/dc-tvu/src/reed_solomon.rs:113-150 | for every square matrix: none exactly when it is singular, else a two-sided inverse, on vectors and as matrix products |
| ReedSolomon.GenerateCauchyMatrix | crates/dc-tvu/src/reed_solomon.rs:19-30 | entry (i, j) is the inverse of x_i + y_j, the points cast to bytes |
| ReedSolomon.Encode | crates/dc-tvu/src/reed_solomon.rs:36-55 | code byte (i, col) is the sum of the data bytes of that column, weighted by row i of the Cauchy matrix |
| ReedSolomon.ExplanationUnique | crates/dc-tvu/src/reed_solomon.rs:57-65 | at most one data matrix explains the received bytes when the selected rows are not singular |
| ReedSolomon.BuildSystem | crates/dc-tvu/src/reed_solomon.rs:77-88 | the system of the received rows: unit vectors for data shreds, Cauchy weights for code shreds |
| ReedSolomon.MultiplyOut | crates/dc-tvu/src/reed_solomon.rs:95-104 | every recovered byte is the product of the inverse's row and the received column |
| ReedSolomon.Decode | crates/dc-tvu/src/reed_solomon.rs:66-107 | none exactly when the system of the selected rows is singular, else the one data matrix that explains every received byte; a row shorter than the first stops it only in the second case |
| AnyKOfN.EliminationStep | crates/dc-tvu/src/reed_solomon.rs:6-17 | two vanishing Cauchy sums combine into one with a column less |
| AnyKOfN.CauchyKernelTrivial | crates/dc-tvu/src/reed_solomon.rs:13-17 | a Cauchy sum cannot vanish at as many points as it has non-zero coefficients |
| AnyKOfN.SelectionNonSingular | crates/dc-tvu/src/reed_solomon.rs:77-91 | within the bound, every choice of `num_data` distinct data and code rows, in any order, is non-singular |
| AnyKOfN.DecodeIsDataOrNone | crates/dc-tvu/src/reed_solomon.rs:57-107 | for all sizes and all data that `encode` accepts: decoding rows of a codeword stops exactly when a non-singular selection starts with a row longer than the first data shred, gives none exactly when the selection is singular, and else the data as far as they were encoded |
| AnyKOfN.DecodeInvertsEncode | crates/dc-tvu/src/reed_solomon.rs:36-107 | within the bound, decode returns exactly the encoded data from any selection; shreds of one length, whatever it is, are returned whole |
| AnyKOfN.ReceivedRectangular | crates/dc-tvu/src/reed_solomon.rs:75-103 | the received rows reach as far as the first one exactly when that has the length of the first data shred |
| AnyKOfN.CollidingPoints | crates/dc-tvu/src/reed_solomon.rs:23-26 | outside the bound the Cauchy matrix has a zero entry |
| AnyKOfN.SomeSelectionSingular | crates/dc-tvu/src/reed_solomon.rs:19-30 | outside the bound some selection of distinct rows is singular |
| AnyKOfN.AnyKOfNExactly | crates/dc-tvu/src/reed_solomon.rs:13-17 | for all data that `encode` accepts: every selection decodes them if and only if `num_code == 0` or `num_code <= num_data <= 128` |
| FecBatches.FecBatch.constructor | crates/dc-tvu/src/fec_batch.rs:15-25 | a batch of the given size, with no parent slot and every slot empty |
| FecBatches.FecBatch.AddDataShred | crates/dc-tvu/src/fec_batch.rs:28-36 | fills an empty slot in range and reports it; changes nothing else |
| FecBatches.FecBatch.AddCodeShred | crates/dc-tvu/src/fec_batch.rs:39-48 | fills an empty slot in range and reports it; changes nothing else |
| FecBatches.FecBatch.CountReceived | crates/dc-tvu/src/fec_batch.rs:51-54 | the number of filled slots |
| FecBatches.FecBatch.GatherRows | crates/dc-tvu/src/fec_batch.rs:76-96 | exactly the first `num_data` shreds received, data shreds first, with their indices |
| FecBatches.FecBatch.TryRecover | crates/dc-tvu/src/fec_batch.rs:57-98 | none below `num_data` shreds; the data shreds themselves once they are complete, whatever the code shreds say; else the decoding of the gathered rows |
| FecBatches.ChosenAreFirst | crates/dc-tvu/src/fec_batch.rs:72-96 | the rows decoded are in order, and every other shred present stands behind all of them |
| FecBatches.RecoversExactly | crates/dc-tvu/src/fec_batch.rs:56-98 | within the bound, a batch of the sender's shreds recovers the sender's data exactly from `num_data` shreds on |
| FecBatches.AlwaysRecoversExactly | crates/dc-tvu/src/fec_batch.rs:56-98 | for all data: batches of their size always recover them from `num_data` honest shreds if and only if the size is within the bound |
| FecBatches.DeliverFills | crates/dc-tvu/src/fec_batch.rs:28-48 | one arrival: its slot is filled if it was empty, the first bytes stay if it was not, and no other slot changes |
| FecBatches.RunHolds | crates/dc-tvu/src/fec_batch.rs:28-48 | after any run of honest arrivals the batch holds the sender's shreds at exactly the delivered indices |
| FecBatches.RunRecovers | crates/dc-tvu/src/fec_batch.rs:28-98 | over any run, in any order, with loss and duplication: the data from `num_data` distinct shreds on, nothing before |
| FecBatches.RecoveryStable | crates/dc-tvu/src/fec_batch.rs:28-98 | the answer depends only on which indices arrived, and further arrivals never change it |
| FecSizes.FaithfulExactly | crates/dc-tvu/src/fec_batch.rs:56-98 | over all runs of a sender's shreds, of any length but zero: a batch of the sender's size never recovers any bytes but the sender's; a batch of another size within the bound does exactly if it has as many data shreds, or more than the sender has shreds for |
| FecSizes.OtherSizeRecovered | crates/dc-tvu/src/fec_batch.rs:56-98 | for any other batch size and any shred length, a run of the sender's own shreds and the rows that it recovers |
| FecSizes.OtherBytesRecovered | crates/dc-tvu/src/fec_batch.rs:56-98 | for shreds that are not empty these are other bytes than the sender's |
| CompactLength.EncodeLen | crates/dc-gossip/src/short_vec.rs:9-30 | the length in groups of seven bits, low group first, high bit on all but the last |
| CompactLength.CompactLenGroups | crates/dc-gossip/src/short_vec.rs:9-30 | group k of the encoding is the quotient by 2^(7k) modulo 128, and every group but the last has the high bit |
| CompactLength.CompactLenFits | crates/dc-gossip/src/short_vec.rs:9-30 | there are as many groups as the length needs and no more |
| CompactLength.DecodeLen | crates/dc-gossip/src/short_vec.rs:32-47 | the OR of the groups in their places and how many bytes were read; up to ten groups, the number they spell, cut to 64 bits |
| CompactLength.LenGroups | crates/dc-gossip/src/short_vec.rs:32-47 | what is read: up to the first byte without the high bit, or the end; byte k counts for the seven bits at its place |
| CompactLength.CompactLenRoundTrip | crates/dc-gossip/src/short_vec.rs:9-47 | decoding undoes encoding and stops where it ends, whatever follows |
| CompactLength.EncodedLenDecodes | crates/dc-gossip/src/short_vec.rs:9-47 | every 64-bit length encodes in at most ten bytes, and the decoder's OR of the groups is the length again |
| CompactLength.LateOneMisread | crates/dc-gossip/src/short_vec.rs:36-38 | the bound of ten groups is needed: a 1 in any later group is read at a wrapped place |
| CompactLength.EncodeThenDecode | crates/dc-gossip/src/short_vec.rs:9-47 | the two methods in sequence return the length and its encoded size |
| Deshredder.ReadShortU16 | crates/dc-tvu/src/deshredder.rs:18-33 | the value and the position behind it; none at the end of the data or on a third continuation, and where the cursor then stands |
| Deshredder.ShortExactly | crates/dc-tvu/src/deshredder.rs:18-33 | the value in closed form: one to three bytes below 128 only at the end, seven bits each, of the third only the two that fit 16 bits |
| Deshredder.ReadU64 | crates/dc-tvu/src/deshredder.rs:35-39 | the little-endian value of the next eight bytes, none if there are fewer |
| CompactLength.LittleEndianDigits | crates/dc-tvu/src/deshredder.rs:35-39 | byte k counts for the eight bits at its place |
| Deshredder.SkipRecordsFrom | crates/dc-tvu/src/deshredder.rs:69-87 | where the instructions or the lookups end |
| Deshredder.TxLen | crates/dc-tvu/src/deshredder.rs:48-93 | the length of the transaction at a position; at least 38 and inside the data |
| Deshredder.TxLenAt | crates/dc-tvu/src/deshredder.rs:48-93 | a transaction is at least 38 bytes long and lies within the data |
| Deshredder.ReadTxs | crates/dc-tvu/src/deshredder.rs:134-150 | the announced number of transactions, or none |
| Deshredder.DeshredIntoTxs | crates/dc-tvu/src/deshredder.rs:101-171 | the entries up to the first that does not parse and their transactions, of the concatenated payloads; the rows of `EntryStream` say which these are |
| Deshredder.FlattenInOrder | crates/dc-tvu/src/deshredder.rs:162-165 | the transactions are in order, entry by entry |
| EntryStream.ShortOfCompactLen | crates/dc-tvu/src/deshredder.rs:15-33 | every 16-bit compact length is read back, wherever it stands |
| EntryStream.CodecsAgree | crates/dc-gossip/src/short_vec.rs:32-47 | on 16-bit lengths the transaction parser and the gossip decoder read the same value and the same number of bytes, at most three |
| EntryStream.TxLenLocal | crates/dc-tvu/src/deshredder.rs:41-93 | a transaction's length depends on its own bytes only: any buffer holding them at any offset yields it |
| EntryStream.BoundariesUnique | crates/dc-tvu/src/deshredder.rs:41-93 | a concatenation of transactions splits in one way only |
| TransactionLayout.TxRoundTrip | crates/dc-tvu/src/deshredder.rs:41-93 | a transaction in the documented layout, legacy or versioned, its lengths written in any way that is read back, is measured in full wherever it stands |
| TransactionLayout.TxParsed | crates/dc-tvu/src/deshredder.rs:48-93 | whatever is measured is such a transaction |
| TransactionLayout.TxLenExactly | crates/dc-tvu/src/deshredder.rs:41-93 | n bytes are measured exactly where a transaction of n bytes stands, on every input |
| TransactionLayout.IsTxExactly | crates/dc-tvu/src/deshredder.rs:41-93 | the byte strings that an entry may carry are exactly the transactions in the documented layout |
| TransactionLayout.ShortestAnnounces | crates/dc-tvu/src/deshredder.rs:15-33 | the shortest encoding of a 16-bit length is one of those |
| EntryStream.EntryRoundTrip | crates/dc-tvu/src/deshredder.rs:117-155 | a printed entry is read back and the cursor stands behind it |
| EntryStream.EntryAtExactly | crates/dc-tvu/src/deshredder.rs:117-155 | an entry is read exactly where one of at most 100 000 transactions stands |
| EntryStream.DeshredRoundTrip | crates/dc-tvu/src/deshredder.rs:95-171 | printing one to 1 000 000 entries of at most 100 000 transactions each, cutting them into payloads in any way, with any bytes behind, deshreds to exactly those entries |
| EntryStream.DeshredFaithful | crates/dc-tvu/src/deshredder.rs:110-171 | on every input: the entries returned print to exactly the bytes behind the count, none is truncated, and parsing stopped only at the count or where no entry of at most 100 000 transactions stands |
| EntryStream.NothingDeshredExactly | crates/dc-tvu/src/deshredder.rs:101-109 | on every input, none exactly for less than eight bytes, a count of zero or above 1 000 000, or when no entry stands behind the count |
| EntryStream.TooManyTransactions | crates/dc-tvu/src/deshredder.rs:128-131 | an entry that announces more than 100 000 transactions is refused |
| Merkle.HashPairs | crates/dc-tvu/src/merkle_prover.rs:18-28 | node i above is the hash of nodes 2i and 2i + 1, and over an odd layer the last is the hash of the last node twice |
| Merkle.NewTree | crates/dc-tvu/src/merkle_prover.rs:11-44 | the leaf digests, the layers paired up from them to one node, and that node as the root; 32 zero bytes for no entries |
| Merkle.Prove | crates/dc-tvu/src/merkle_prover.rs:46-69 | none exactly out of range, else from every layer below the root the node beside the one on the way up, or that node itself where it is left over |
| Merkle.LastOfOddTree | crates/dc-tvu/src/merkle_prover.rs:58-63 | the proof of the last leaf of an odd tree starts with that leaf |
| Merkle.Verify | crates/dc-tvu/src/merkle_prover.rs:71-89 | accepts exactly when the fold of leaf and proof is the root |
| Merkle.ProofFoldsToRoot | crates/dc-tvu/src/merkle_prover.rs:46-89 | every leaf's own proof folds to the root, through duplicated nodes too |
| Merkle.HeightIsCeilLog | crates/dc-tvu/src/merkle_prover.rs:17-31 | the tree's height is the logarithm of the number of leaves, rounded up |
| Merkle.Completeness | crates/dc-tvu/src/merkle_prover.rs:11-89 | for every non-empty list and every index the tree's proof verifies and has that length |
| Merkle.Soundness | crates/dc-tvu/src/merkle_prover.rs:71-89 | for proofs of every length and every index: an accepted leaf and proof are the tree's own at that index (a leaf of the tree, beyond them), or a collision is exhibited, or the length is wrong and 64 bytes are exhibited whose hash is that leaf, or one of the tree's |
| Merkle.AcceptedEntryIsInTree | crates/dc-tvu/src/merkle_prover.rs:71-89 | the same for entries: an accepted one is in the tree, and at that index if the tree has it, or a collision is exhibited, or the length is wrong and an entry of 64 bytes passed for two digests |
| Merkle.NoForgery | crates/dc-tvu/src/merkle_prover.rs:71-89 | no proof of the tree's height, and none of any length if no entry is 64 bytes long, forges an entry without a collision |
| Merkle.ShorterProofForges | crates/dc-tvu/src/merkle_prover.rs:71-89 | every tree of two entries or more accepts some 64 bytes without a proof |
| Merkle.LongerProofForges | crates/dc-tvu/src/merkle_prover.rs:71-89 | a string whose digest starts an entry of 64 bytes is accepted with a proof longer by one |
| SdkVerifier.HexToBytes | sdk/src/index.ts:105-111 | one byte for each pair of characters, as `parseInt` reads the pair |
| SdkVerifier.PairsExactly | sdk/src/index.ts:105-111 | a pair of digits is its value, a digit before anything else its own, one behind a sign or white space is read with the sign, and all else is zero |
| SdkVerifier.BytesEqual | sdk/src/index.ts:113-117 | byte-wise equality |
| SdkVerifier.VerifyMerkleProof | sdk/src/index.ts:84-101 | accepts exactly when the fold of the decoded leaf and proof is the decoded root |
| SdkVerifier.HexRoundTrip | sdk/src/index.ts:105-111 | decoding the server's lower-case hexadecimal gives the bytes back |
| SdkVerifier.ClientAgrees | sdk/src/index.ts:84-101 | the client's answer on hexadecimal values is the server's on digests |
| SdkVerifier.FetchAndVerify | sdk/src/index.ts:201-213 | the client accepts the server's proof of every entry of every tree |
| RingBuffers.SlotRingBuffer.constructor | crates/dc-tvu/src/ring_buffer.rs:22-29 | an empty ring of any capacity |
| RingBuffers.SlotRingBuffer.Put | crates/dc-tvu/src/ring_buffer.rs:31-42 | overwrites the slot's position and moves the window; below the greatest 64-bit slot no sum wraps |
| RingBuffers.SlotRingBuffer.LatestSlot | crates/dc-tvu/src/ring_buffer.rs:44-50 | none exactly while the window is empty, and then no lookup answers; else the last slot of the window, behind which no lookup answers |
| RingBuffers.SlotRingBuffer.Len | crates/dc-tvu/src/ring_buffer.rs:52-54 | the width of the window, at most the capacity; it saturates only after a wrap |
| RingBuffers.SlotRingBuffer.Get | crates/dc-tvu/src/ring_buffer.rs:56-68 | the data at the slot's position if the slot is in the window and the data is its own |
| RingBuffers.GreatestSlotHidesAll | crates/dc-tvu/src/ring_buffer.rs:31-42 | putting the greatest 64-bit slot makes every lookup fail |
| RingBuffers.RingContents | crates/dc-tvu/src/ring_buffer.rs:31-42 | after any run of puts each position holds the latest data put there; the window ends at the greatest slot and spans the capacity, if no slot is the greatest 64-bit one |
| RingBuffers.LatestSlotIsMax | crates/dc-tvu/src/ring_buffer.rs:44-50 | over any run of puts the latest slot is the greatest one put, exactly if that is not the greatest 64-bit slot |
| RingBuffers.RingRefinesMap | crates/dc-tvu/src/ring_buffer.rs:56-68 | a lookup returns nothing but the latest data put for that slot; and exactly when the slot is in the window and its position was not taken by a later put |
| RingBuffers.RingIsWindowOfMap | crates/dc-tvu/src/ring_buffer.rs:31-68 | without puts older than the window the ring is the unbounded map restricted to the last `capacity` slots, exactly if the greatest 64-bit slot is not among them |
| Pipeline.Receiver.constructor | crates/dc-tvu/src/main.rs:104-107 | nothing pending, cached or stored |
| Pipeline.Receiver.EnsureBatch | crates/dc-tvu/src/main.rs:194-205 | the set's batch; a new one has 32 data and 32 code shreds if a data shred comes first, and the sizes in the header if a code shred does |
| Pipeline.Receiver.AddToBatch | crates/dc-tvu/src/main.rs:217-229 | the shred in its slot; a data shred gives a batch without parent slot the slot its offset before its own, zero if that is below zero |
| Pipeline.DataIndex | crates/dc-tvu/src/main.rs:219 | the index that, added to the start of the set in 32 bits, is the shred's |
| Pipeline.Receiver.TakeIn | crates/dc-tvu/src/main.rs:194-229 | only the shred's own batch changes |
| Pipeline.Receiver.StoreRecovered | crates/dc-tvu/src/main.rs:238-252 | a set that deshreds goes to the ring and to disk with its tree, any other nowhere |
| Pipeline.Receiver.Discard | crates/dc-tvu/src/main.rs:264 | the recovered batch is gone, all else stays |
| Pipeline.Receiver.ProcessShred | crates/dc-tvu/src/main.rs:186-266 | the whole new state of batches, ring and files as one step of the old |
| Pipeline.Receiver.LoadSlotData | crates/dc-tvu/src/rpc_server.rs:79-115 | the cached transactions and tree, else those of the stored file; of the transactions, those that parse, in order |
| Pipeline.Receiver.LoadParentSlot | crates/dc-tvu/src/rpc_server.rs:214-218 | the parent of the cached block, and the slot before, at least zero, if none is cached |
| Pipeline.IndexesAgreeExactly | crates/dc-tvu/src/rpc_server.rs:111-115 | a served transaction has the index of its own leaf exactly when no transaction that parses stands behind one that does not |
| PipelineSafety.StepKeepsOthers | crates/dc-tvu/src/main.rs:186-266 | whatever a shred carries, it changes no set but its own and no file but its slot's |
| PipelineSafety.StepKeepsAgreement | crates/dc-tvu/src/main.rs:236-251 | whatever a shred carries, every cached block stays the one its file deshreds to, and every file deshreds |
| PipelineSafety.RunAgrees | crates/dc-tvu/src/main.rs:131-175 | the same after every run |
| PipelineSafety.HotColdAgreement | crates/dc-tvu/src/rpc_server.rs:79-109 | after every run and for every slot cached: cache and disk give the same transactions and tree exactly when the block has a transaction |
| PipelineSafety.ServedFromFiles | crates/dc-tvu/src/rpc_server.rs:79-109 | after every run the slot's file decides what is served, none without one; but nothing for an empty block that is still cached |
| PipelineSafety.RingOfRun | crates/dc-tvu/src/main.rs:248-251 | over every run the ring is the ring of the blocks stored, and exactly their slots have files |
| PipelineSafety.CachedBlock | crates/dc-tvu/src/main.rs:239-251 | after every run every field of a cached block but its parent: its slot, and the entries, number of transactions, tree and root of the slot's file |
| ParentSlots.BatchParent | crates/dc-tvu/src/main.rs:217-229 | after every run a set's batch has as its parent the slot named by the first data shred it took in that names one above zero, and zero if there is none |
| ParentSlots.StoredParent | crates/dc-tvu/src/main.rs:238-251 | a block is stored with the parent named by the shreds it was recovered from |
| ParentSlots.CachedParent | crates/dc-tvu/src/rpc_server.rs:214-225 | after every run every cached block has that parent, of the set that it was stored for |
| ParentSlots.ParentServed | crates/dc-tvu/src/rpc_server.rs:214-225 | in a slot whose data shreds all carry one offset, a cached block's parent is that far before it, or zero if it was recovered from code shreds alone |
| PipelineSafety.ReceiveAll | crates/dc-tvu/src/main.rs:131-175 | the receive loop ends in the state of the run, for every run that does not stop the program |
| PipelineSafety.HonestShredProcessed | crates/dc-tvu/src/main.rs:217-236 | a shred honest for its set never stops the program, and recovery gives the sender's data exactly from 32 shreds on |
| PipelineSafety.StepExactly | crates/dc-tvu/src/main.rs:217-265 | one such shred: it recovers its set exactly if it is the 32nd open index, else joins the open ones; a recovered set that deshreds replaces its slot's file |
| PipelineSafety.RunTracksSet | crates/dc-tvu/src/main.rs:203-264 | foreign shreds cannot corrupt a set: whatever else arrives, its batch holds exactly its sender's shreds at the indices that arrived since it was last complete |
| PipelineSafety.CompletionRecovers | crates/dc-tvu/src/main.rs:236-265 | among any other traffic a shred of an honest set recovers exactly when it completes the set, then the sender's data, which become the slot's file if they deshred |
| PipelineSafety.RunTracksSlot | crates/dc-tvu/src/main.rs:236-265 | among any traffic of other slots, an honest slot's file is the data of the last of its sets to be complete that deshreds, and there is none without one |
| PipelineSafety.ServedExactly | crates/dc-tvu/src/rpc_server.rs:79-109 | for every honest slot: nothing is served if no set was complete, else exactly the transactions and tree of the last one; but nothing for an empty block that is still cached |
| PipelineSafety.RunTracks | crates/dc-tvu/src/main.rs:203-265 | when all is honest: every set and every slot at once |
| PipelineSafety.StepKeepsInv | crates/dc-tvu/src/main.rs:186-266 | one honest shred does not stop the program and keeps: pending batches are their senders', files are sets of their slot |
| PipelineSafety.RunKeepsInv | crates/dc-tvu/src/main.rs:131-175 | the same after any interleaving of honest shreds of any sets and slots, re-delivery included, which never stops the program |
| PipelineSafety.FirstShredDecides | crates/dc-tvu/src/main.rs:195-205 | for which set sizes every recovery is the sender's bytes: always after a code shred; after a data shred exactly for 32 data shreds, or too few shreds in all |
| EndToEnd.CompletesLast | crates/dc-tvu/src/main.rs:236-265 | a set whose open and newly delivered indices make 32 is the last one stored of its slot, if no other set of the slot arrived in the meantime |
| EndToEnd.FullSetFillsSlot | crates/dc-tvu/src/main.rs:236-265 | once 32 distinct shreds of a set that deshreds have arrived, its slot has a file, of this set or another |
| EndToEnd.BuiltTreeAccepted | sdk/src/index.ts:84-117 | of every tree the client accepts every leaf, from the hexadecimal values the server sends |
| EndToEnd.EndToEnd | crates/dc-tvu/src/main.rs:186-266 | after any run in which the slot's shreds are honest and the set is the last one complete, the node serves exactly the transactions the leader printed, and the client accepts the proof of each; an empty list only once it is no longer cached |
| EndToEnd.AnyEntriesCanBeSent | crates/dc-tvu/src/reed_solomon.rs:36-55 | for every list of entries within the limits there is a set and an order of arrival as the theorems below ask for |
| EndToEnd.LeaderToClient | crates/dc-tvu/src/main.rs:186-266 | for every list of entries, after any run with honest shreds in its slot and for every order of arrival with 32 different shreds of the set, the node serves exactly those entries' transactions, and the client accepts the proof of each; an empty list only once it is no longer cached |
| EndToEnd.LaterSetReplaces | crates/dc-tvu/src/main.rs:249-251 | two sets of one slot, one after the other: the first is served, and then only the second |
| EndToEnd.EmptyBlockRefused | crates/dc-tvu/src/rpc_server.rs:85-88 | a run that stores a block without transactions: it is on disk, and not served while cached |
| EndToEnd.EvictedEmptyBlockServed | crates/dc-tvu/src/rpc_server.rs:102-108 | the same block is served, as an empty list, once a later slot has evicted it |
| Gossip.MatchesTopBits | crates/dc-gossip/src/crds_filter.rs:56-61 | a filter matches exactly the hashes whose top bits are its seed |
| Gossip.MasksPartition | crates/dc-gossip/src/crds_filter.rs:97-117 | every 64-bit hash matches the mask of one seed and no other |
| Gossip.SeedsDistinct | crates/dc-gossip/src/crds_filter.rs:85-93 | in-range seeds are left alone by the clamp and have different masks |
| Gossip.ClampWraps | crates/dc-gossip/src/crds_filter.rs:85-93 | any other seed counts like the one it leaves modulo the number of partitions |
| Gossip.CreatePullRequestMessages | crates/dc-gossip/src/pull_request.rs:124-161 | one encoded request for every seed in order, each with its seed's mask and its own filter, whose budget keeps it within one packet of 1232 bytes; none exactly without a socket, or when the caller or one of the requests does not serialize; it stops for a caller that leaves no room for a filter |
| Gossip.OneRequestAsks | crates/dc-gossip/src/pull_request.rs:140-150 | of the requests of one round, all of which the entrypoint gets, exactly one asks for a given hash |
| Gossip.ReachesAllExactly | crates/dc-gossip/src/pull_request.rs:141-144 | the seeds enumerated reach every hash exactly with fewer than 64 mask bits |
| Gossip.PullLoop.constructor | crates/dc-gossip/src/lib.rs:134-138 | the entrypoint is known and the round counter is zero |
| Gossip.PullLoop.LearnPeers | crates/dc-gossip/src/lib.rs:167 | known are the peers known before and the new ones, and no others |
| Gossip.PullLoop.Round | crates/dc-gossip/src/lib.rs:177-206 | the entrypoint gets every message, each other known peer the one of this round, nobody any if there are none; only a successful round advances the counter |
| Gossip.PeerSent | crates/dc-gossip/src/lib.rs:194-203 | exactly the known peers other than the entrypoint are sent something, and it is the message of this round |
| Gossip.RoundSends | crates/dc-gossip/src/lib.rs:194-203 | a round that enumerates the partitions has the next request of the rotation at its index |
| Gossip.RequestsToPeer | crates/dc-gossip/src/lib.rs:177-206 | over any run of rounds that succeed or fail, and of learned peers: a known peer gets one request in each successful round, the k-th for partition (start + k) mod 2^64 mod 2^B |
| Gossip.KnownExactly | crates/dc-gossip/src/lib.rs:167-206 | after any run the known peers are those at its start and those learned, and the counter has counted the successful rounds modulo 2^64 |
| Gossip.StrangersGetNothing | crates/dc-gossip/src/lib.rs:194-203 | over any run a peer not learned, and the entrypoint, get nothing of the rotation |
| Gossip.LearnedPeerRequested | crates/dc-gossip/src/lib.rs:134-206 | over any run of the loop from its start: a peer is sent nothing until it is learned, and from then on one request in each successful round, in the rotation from where the counter then stands |
| Gossip.WrapKeepsRotation | crates/dc-gossip/src/lib.rs:199-203 | the wrap of the 64-bit counter does not disturb the rotation |
| Gossip.RotationCovers | crates/dc-gossip/src/lib.rs:194-203 | among any 2^B consecutive numbers of requests each partition occurs exactly once |
| Gossip.EveryHashRequestedOnce | crates/dc-gossip/src/lib.rs:194-203 | over any such run, of any 2^B consecutive requests to a known peer exactly one asks for a given hash |
| Gossip.BuildCache | crates/dc-gossip/src/pull_request.rs:25-45 | for every target, a budget of the greatest filter size that fits, and of those the greatest |
| Gossip.GetMaxBloomFilterBytes | crates/dc-gossip/src/pull_request.rs:47-57 | a non-zero budget keeps the request within one packet, and no larger one does if sizes grow with budgets |
| Gossip.ZeroBudgetExactly | crates/dc-gossip/src/pull_request.rs:47-57 | the budget is zero, on which building a filter stops the program, exactly when no filter fits beside the caller |
| Gossip.RequestBudget | crates/dc-gossip/src/pull_request.rs:82-90 | building the table and looking the caller up in it stays within one packet, and no larger budget does if sizes grow with budgets |

## Left out

- Pipeline.Receiver.ProcessShred: requires that the decoder can read the rows it is given, and would stop on others as the program does; the run theorems derive it from equal payload lengths within a set.
- PipelineSafety.RunTracksSet: sets of 32 data shreds and at most 32 code shreds, the only ones that recover in every order; `FecSizes.FaithfulExactly` covers the other sizes, batch by batch.
- Gossip.CreatePullRequestMessages: requires room for a filter beside the caller, without which the program stops, and at most 64 mask bits for a filter with a budget.
- RingBuffers.SlotRingBuffer.Put: excludes a ring of capacity zero, whose modulus is undefined; the program's has capacity 500.
- Deshredder.TxLen: positions are unbounded, so the overflow checks of the program, out of reach for any buffer that fits in memory, do not appear.
- Shred and header parsing (`shred.rs`, `shred_header.rs`): fixed offsets and a variant byte.
- SHA-256, ed25519, bincode and the Bloom filter: foreign code; the hash is a parameter and the filter's size a function parameter.
- The floating-point sizing `max_items` and `compute_mask_bits`: numeric; the number of mask bits is a parameter.
- Sockets, tasks, timers, HTTP and JSON handlers, statistics, the repair requests and the gossip handshake: plumbing.
- Slot tracking shared between tasks: two unsynchronized writers, about which nothing is claimed.
- Failing disk writes and the file names of stored slots: a file store is a map from slot to bytes.
- Compatibility with other implementations' erasure matrices, and leader signatures.
- `Protocol::decode_from`, `CrdsTable` and the contact-info codec: their behaviour rests on foreign serialization, or they are single-branch.
