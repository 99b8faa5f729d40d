# Aether-X: a model and its proofs

This project models the arithmetic, trees, codecs and state machines at the heart of the
Aether-X supervisor (`core-supervisor`) and of its anti-forgery service (`antiforgery`), and
proves what they promise, over all inputs and all runs.

| files | component |
|---|---|
| `Bits`, `Field`, `LogTables`, `GfPowers`, `Gf256` | GF(2^8) by logarithm tables |
| `LinearAlgebra`, `GaussJordan`, `Cauchy` | inner products, matrix inversion, Cauchy matrices, over any field of characteristic two |
| `ErasureCode`, `SystematicCode`, `Fec`, `AdaptiveFec` | the Reed-Solomon erasure code, what it puts on the wire, its encoder and decoder, the controller that sizes it |
| `MerkleTree`, `MerkleLog`, `MerkleSoundness` | inclusion proofs, consistency proofs, and what accepting one shows |
| `Wire`, `Crc16`, `CrcOrder`, `TwoBitErrors`, `CrcStart`, `Icmp` | the checksummed ICMP frame, and which errors its checksum catches |
| `Fields`, `Base64Url`, `Pae`, `Token` | PASETO v4.public tokens |
| `ReplayRing`, `Tunnel` | the replay buffer and the nested tunnel framing |
| `Cadence`, `Draws` | the probe cadence governor, and the jitter it draws |
| `DnsName`, `DnsMessage` | the DNS probe's codec |
| `ReplayGuard`, `Refresh` | the nonce guard and rotating refresh tags |
| `Options`, `Powers`, `Arithmetic` | shared definitions |

`dafny verify dfyconfig.toml` checks everything.

## How the model is built

* Bytes are numbers below 256; where the source shifts and exclusive-ors, they are taken apart
  into their bits, or, for the 64-bit draws of the jitter, are bit vectors. Casts that cut a
  length to 8, 16 or 32 bits are written out. Times and counters are unbounded integers.
* Foreign code is a parameter: the signature scheme of tokens and the authentication code of
  refresh tags are functions, and every theorem says what it needs of them. SHA-256 is a free
  datatype, so that equal digests mean equal inputs and leaf and node hashes never meet.
* Objects that the source updates in place are classes. Each method is proved to be one step of a
  state machine on values, and the theorems about runs are about that machine. A lock is held for
  the whole of every method concerned, so a run is a sequence of whole steps.
* Loss rates are real numbers.

## Where the code and its comments part ways

* `AdaptiveFec::observe_loss` is commented as never reducing redundancy. That holds from every
  configuration of at most 255 shards (`RunNeverReducesRedundancy`). A new controller with k data
  shards loses parity in a run exactly for 179 <= k <= 254, at its first observation and never
  again (`NewControllerLosesParity`, `ParityDropsOnce`); with 200 data shards, 86 parity shards
  become 55 (`ParityLostAt200`).
* The governor is documented as probing once per 30 s in confirmed isolation, and its back-off as
  never faster than the level's interval. Jitter is applied after that floor: with the default seed,
  two probes of the transport named `f` are 22.5 s apart (`FasterThanBase`). A delay reaches the
  level's interval whatever the seed exactly from a number of failures in a row on that depends on
  the level: 1, 4, 7 or 8 (`NoFasterThanBase`). `ProbesAreSpaced` gives the spacing that does hold
  over runs, and `GapIsTight` that for every transport some seed attains it.
* Consistency proofs are described as made of power-of-two nodes; right siblings need not be. The
  verifier does not look at the ranges of the nodes it is given, and not at the old root where the
  proof states an old size of zero (`ZeroOldSizeIsAccepted`). Accepting a proof shows that the old
  log is a prefix exactly when the proof is anchored: its old size is not zero, and every node the
  old root is rebuilt from is also read for the new root (`ShowsPrefixIff`, by way of
  `AcceptedShowsPrefix` and `UnanchoredProofIsUnsound`). The proofs the log issues are
  (`IssuedProofIsAnchored`).
* `verify_proof` does not use the proof's index; the sides of the steps spell the position
  (`AcceptedProofIsGenuine`, `ClaimedIndexIsRight`).
* In `decode`, the errors for too little parity, for too short a system and for a singular matrix
  cannot occur once k distinct shards are in hand. `DecodePayload` is proved without them.

## Model

| member | source | states |
|---|---|---|
| Gf256.BuildTables | core-supervisor/src/fec_engine.rs:31-48 | the 512-entry table holds the powers of x and the 256-entry table their logarithms, so every lookup by a sum of two logarithms is in bounds |
| Gf256.LookUpProduct | core-supervisor/src/fec_engine.rs:60-66 | the lookup at the sum of two logarithms, with its zero test, is the product by logarithms |
| Gf256.LookUpQuotient | core-supervisor/src/fec_engine.rs:72-80 | the lookup at their difference modulo 255 is the quotient by logarithms |
| Gf256.TableArithmetic | core-supervisor/src/fec_engine.rs:60-87 | over the tables as built these are the field's product and inverse, and a quotient that times the divisor gives the dividend |
| Gf256.GfIsField | core-supervisor/src/fec_engine.rs:53-87 | exclusive-or and the table-driven product and inverse satisfy all field laws on bytes |
| Gf256.MulIsPolynomialProduct | core-supervisor/src/fec_engine.rs:60-66 | the table-driven product is polynomial multiplication modulo 0x11d, by shifts and exclusive-ors |
| LogTables.EveryElementIsAPower | core-supervisor/src/fec_engine.rs:31-48 | x is primitive: every non-zero element is one of its first 255 powers |
| LogTables.TablesMakeAField | core-supervisor/src/fec_engine.rs:53-87 | multiplication by logarithms of a primitive element makes a field, whatever the representation |
| LogTables.DivMul | core-supervisor/src/fec_engine.rs:72-80 | division undoes multiplication for every non-zero divisor |
| LogTables.MulIsPolyMul | core-supervisor/src/fec_engine.rs:60-66 | the product by logarithms agrees with shift-and-add multiplication |
| GaussJordan.InvertMatrix | core-supervisor/src/fec_engine.rs:113-153 | Gauss-Jordan elimination returns a matrix that undoes the given one and is undone by it, and returns nothing exactly when the given one has a non-zero null vector |
| GaussJordan.InvertsIsLeftInverse | core-supervisor/src/fec_engine.rs:113-153 | a matrix that undoes another, times the other, is the identity: so what is returned is the inverse on both sides |
| GaussJordan.InvertsNotSingular | core-supervisor/src/fec_engine.rs:113-153 | the two outcomes exclude each other |
| GaussJordan.EliminateColumn | core-supervisor/src/fec_engine.rs:137-150 | clearing a column keeps the companion matrix in step and gains no null vector |
| GaussJordan.FindPivot | core-supervisor/src/fec_engine.rs:123-125 | the first usable pivot row, or none if the column has none |
| Cauchy.CauchyNonsingular | core-supervisor/src/fec_engine.rs:96-108 | a vector with no more non-zero entries than there are Cauchy rows annihilating it is zero: every square Cauchy submatrix is nonsingular |
| ErasureCode.ShardIsGeneratorRow | core-supervisor/src/fec_engine.rs:237-292 | every byte of every shard is the inner product of the shard's generator row with the data bytes at that offset |
| ErasureCode.AnyKShardsSuffice | core-supervisor/src/fec_engine.rs:374-403 | the equations of any k distinct shards out of k+m have a nonsingular matrix |
| ErasureCode.JoinedIsPayload | core-supervisor/src/fec_engine.rs:429-440 | the padded data shards, joined and cut, are the payload |
| SystematicCode.CodewordIsCode | core-supervisor/src/fec_engine.rs:237-292 | the shards of every payload, byte by byte and without the matrix: the data shards are the payload cut up and padded with zeros, and a parity byte is the sum of quotients, of the data bytes at its offset by p + (m + i) |
| SystematicCode.CodeIsUnique | core-supervisor/src/fec_engine.rs:237-292 | no other shards have these bytes |
| SystematicCode.UnitPayload | core-supervisor/src/fec_engine.rs:96-108 | for the k bytes that are one at i and zero elsewhere, the parity shard p is the single byte that times p + (m + i) is one |
| SystematicCode.ShardLenIsLeast | core-supervisor/src/fec_engine.rs:248-250 | the length of the shards is the least, from one on, that makes room for the payload |
| Fec.CauchyParityMatrix | core-supervisor/src/fec_engine.rs:96-108 | the loops build m rows of k entries, of which the one in row p and column i times p + (m + i) is one |
| Fec.EncodePayload | core-supervisor/src/fec_engine.rs:237-292 | every error and its condition; otherwise the k data shards and m parity shards of the code, which as bytes are those of `CodewordIsCode` |
| Fec.CollectShards | core-supervisor/src/fec_engine.rs:332-350 | fails exactly on an index out of place; otherwise splits the shards by kind and index, and finds the longest |
| Fec.LastWins | core-supervisor/src/fec_engine.rs:337-350 | of several shards of one kind and index, the last received is the one kept |
| Fec.LongestIsLongest | core-supervisor/src/fec_engine.rs:337-350 | the common length is that of the longest shard received |
| Fec.BuildSystem | core-supervisor/src/fec_engine.rs:374-401 | the rows and right-hand sides of the k shards in hand with the lowest indices |
| Fec.RecoveredIsData | core-supervisor/src/fec_engine.rs:403-419 | a row of the inverse applied to the shards in hand gives back the missing shard, byte by byte |
| Fec.SolvedIsExplained | core-supervisor/src/fec_engine.rs:374-419 | whatever data has the shards used in its encoding, its data shards are the ones put together: there is at most one such data |
| Fec.SolvedExplains | core-supervisor/src/fec_engine.rs:374-419 | if the shards in hand have one length there is such data, from an encoding or not: the data shards put together, joined |
| Fec.DecodePayload | core-supervisor/src/fec_engine.rs:322-440 | with k or more distinct shards of an encoding, in any order and with any repetition, exactly the payload, or as much of it as is asked for; with k or more shards of one length, whatever they are, the one data block whose encoding has the k shards used; with fewer than k, an error that counts them; on a shard out of place, or completed data shorter than the length asked for, a failure; and in no other case |
| Fec.FecEncoder.Encode | core-supervisor/src/fec_engine.rs:237-292 | the encoder over GF(2^8): succeeds exactly if the payload is not empty, the code is supported and the shards are not too long; then the shards are those of `CodewordIsCode`, and the success is counted |
| Fec.FecDecoder.Decode | core-supervisor/src/fec_engine.rs:322-440 | the decoder over GF(2^8): decodes any k shards of an encoding, and counts batches and recovered shards |
| AdaptiveFec.LossIsCovered | core-supervisor/src/fec_engine.rs:183-192 | losing a fraction of all shards loses no more of them than the parity chosen for that fraction |
| AdaptiveFec.ForLossCovers | core-supervisor/src/fec_engine.rs:183-192 | the same for every loss rate up to the clamp |
| AdaptiveFec.ParityMonotone | core-supervisor/src/fec_engine.rs:183-192 | more loss never gets less parity |
| AdaptiveFec.ParityIsLeast | core-supervisor/src/fec_engine.rs:183-186 | the parity chosen is the least, from one on, that makes up for losing the given fraction of all shards |
| AdaptiveFec.ForLossIsLeast | core-supervisor/src/fec_engine.rs:183-192 | the same for the configuration made for any loss rate, cut to [0, 0.9] |
| AdaptiveFec.ObserveKeeps | core-supervisor/src/fec_engine.rs:472-491 | from a realisable code, one observation keeps k, keeps the code realisable and lowers neither parity nor target |
| AdaptiveFec.RunNeverReducesRedundancy | core-supervisor/src/fec_engine.rs:472-491 | the same over every run of observations |
| AdaptiveFec.EwmaIsWeightedSum | core-supervisor/src/fec_engine.rs:472-475 | over every run the smoothed rate is the sum of the losses observed, each weighing a fifth and four fifths less with every later one, and of what is left of the rate before |
| AdaptiveFec.ObserveCovers | core-supervisor/src/fec_engine.rs:472-491 | after an observation the parity makes up for the loss observed and for 1.2 times the smoothed rate, up to a half, or the code is as large as it can be |
| AdaptiveFec.RunFollowsPeak | core-supervisor/src/fec_engine.rs:472-491 | after every run the parity is the least that makes up for the highest rate called for so far, or all there is room for |
| AdaptiveFec.PeakBounds | core-supervisor/src/fec_engine.rs:480-483 | every loss and 1.2 times every smoothed rate of the run, up to a half, is no higher than that rate |
| AdaptiveFec.NewIsSettled | core-supervisor/src/fec_engine.rs:463-470 | a new controller with 1 to 178 data shards starts such runs, at a rate of 0.3 and a smoothed rate of 0.05 |
| AdaptiveFec.NewControllerLosesParity | core-supervisor/src/fec_engine.rs:463-491 | after a run a new controller has less parity than at the start exactly if the run is not empty and 179 <= k <= 254 |
| AdaptiveFec.ParityDropsOnce | core-supervisor/src/fec_engine.rs:463-491 | an observation in a run lowers parity exactly if it is the first and 179 <= k <= 254 |
| AdaptiveFec.ParityLostAt200 | core-supervisor/src/fec_engine.rs:463-491 | at k == 200, 86 parity shards become 55 |
| AdaptiveFec.Controller.Observe | core-supervisor/src/fec_engine.rs:472-491 | the object takes exactly that step: it smooths the loss, and from a realisable code covers the loss and 1.2 times the smoothed rate, and lowers neither parity nor target |
| MerkleTree.FromLeaves | antiforgery/src/merkle.rs:109-150 | the loop builds the levels of the recursive duplicate-last tree |
| MerkleTree.TreeRootIsRoot | antiforgery/src/merkle.rs:166-168 | the last level holds the recursively defined root; an empty tree has none |
| MerkleTree.BuildProof | antiforgery/src/merkle.rs:173-197 | the loop collects the sibling steps of the leaf, and nothing for an index out of range |
| MerkleTree.VerifyProof | antiforgery/src/merkle.rs:203-212 | accepts exactly when folding the steps over the leaf hash gives the root |
| MerkleTree.ProofVerifies | antiforgery/src/merkle.rs:173-212 | every proof folds to the root, and has as many steps as the tree is high |
| MerkleTree.HeightIsCeilLog | antiforgery/src/merkle.rs:16-18 | that height is the logarithm of the leaf count, rounded up |
| MerkleTree.AcceptedProofIsGenuine | antiforgery/src/merkle.rs:203-212 | an accepted proof has exactly that height, and its data is the leaf at the position its sides spell |
| MerkleTree.ClaimedIndexIsRight | antiforgery/src/merkle.rs:203-212 | with distinct leaves, an accepted proof's claimed index is the data's exactly when it is the position the sides spell, or the last leaf where they spell one in the padding |
| MerkleTree.AnyIndexIsAccepted | antiforgery/src/merkle.rs:203-212 | an accepted proof may claim another index |
| MerkleTree.EqualRoots | antiforgery/src/merkle.rs:109-150 | two lists have equal roots exactly when they fill the padded tree alike |
| MerkleTree.EqualRootsEqualLists | antiforgery/src/merkle.rs:109-150 | at equal leaf counts, equal roots mean equal lists |
| MerkleTree.PaddingIsNotCommitted | antiforgery/src/merkle.rs:123-135 | at different counts they need not |
| MerkleLog.LargestPow2LtLoop | antiforgery/src/merkle.rs:249-255 | the doubling loop computes the recursive split point |
| MerkleLog.PrefixSplitsAlike | antiforgery/src/merkle.rs:249-266 | a prefix longer than the split point splits where the whole does |
| MerkleLog.SubtreeHashInjective | antiforgery/src/merkle.rs:258-266 | the forest hash of a range determines its leaves |
| MerkleLog.RootsAgreeAtPow2 | antiforgery/src/merkle.rs:109-150 | at a power-of-two leaf count the bottom-up root is the top-down forest root |
| MerkleLog.SubproofCovers | antiforgery/src/merkle.rs:301-340 | the nodes of a proof cover the whole range and the prefix, given the prefix's own node where it is left out |
| MerkleLog.SubproofHonest | antiforgery/src/merkle.rs:301-340 | every node of a proof carries the hash of its range |
| MerkleLog.ConsistencyComplete | antiforgery/src/merkle.rs:284-401 | for every 0 < m < n the issued proof is accepted against the forest roots of the prefix and the whole |
| MerkleLog.SevenLeaves | antiforgery/src/merkle.rs:301-340 | the proofs for 3, 4 and 6 out of seven leaves, node by node, as in section 2.1.3 of RFC 6962 |
| MerkleSoundness.AcceptedShowsPrefix | antiforgery/src/merkle.rs:345-401 | accepting an anchored proof, whatever its hashes, against the roots of two logs of leaf hashes, of whatever lengths, shows that the old log is a prefix of the new one |
| MerkleSoundness.AnchoredProofIsSound | antiforgery/src/merkle.rs:345-401 | at the sizes the proof states, the same for logs of any digests |
| MerkleSoundness.UnanchoredProofIsUnsound | antiforgery/src/merkle.rs:345-401 | for all other sizes and ranges that can be accepted at all, an old size of zero among them, some hashes are accepted between two logs of which the old one is not a prefix of the new one |
| MerkleSoundness.ShowsPrefixIff | antiforgery/src/merkle.rs:345-401 | so sizes and ranges that can be accepted show a prefix, whatever the hashes, exactly when they are anchored |
| MerkleSoundness.CanBeAcceptedIff | antiforgery/src/merkle.rs:345-401 | the sizes and ranges that can be accepted are exactly those that are accepted with some hashes between some two logs |
| MerkleSoundness.AcceptedExactly | antiforgery/src/merkle.rs:284-401 | for every 0 < m <= n, the proof for the first m leaves (without nodes for all n) is accepted between an old root and the root of the log exactly if the old root is that of these leaves; the log issues one exactly for m < n |
| MerkleSoundness.EqualSizes | antiforgery/src/merkle.rs:380-382 | at equal sizes, acceptance means no nodes and equal roots |
| MerkleSoundness.LargerOldSize | antiforgery/src/merkle.rs:380-382 | an old size larger than the new one is never accepted |
| MerkleSoundness.ZeroOldSizeChecksNew | antiforgery/src/merkle.rs:375-379 | with an old size of zero, a supplied new root has to be the right one |
| MerkleSoundness.ZeroOldSizeIsAccepted | antiforgery/src/merkle.rs:368-401 | an old size of zero without nodes is accepted between any two roots |
| MerkleSoundness.WholeRangeNodeIsAccepted | antiforgery/src/merkle.rs:368-401 | the smallest such case: a single node over the whole range |
| MerkleSoundness.IssuedProofIsAnchored | antiforgery/src/merkle.rs:301-340 | every proof the log issues is anchored |
| MerkleSoundness.WellShapedProofIsSound | antiforgery/src/merkle.rs:301-401 | accepting a proof with the ranges of an issued one shows the prefix, whatever its hashes |
| Crc16.Crc16 | core-supervisor/src/icmp_tunnel.rs:59-73 | the byte-wise double loop computes the bit-serial checksum |
| Crc16.ZeroIffSpelled | core-supervisor/src/icmp_tunnel.rs:59-73 | with at most 16 bits to go the register ends at zero exactly when they are its own top bits, above zeros |
| Crc16.BurstDetected | core-supervisor/src/icmp_tunnel.rs:59-73 | different windows of at most 16 bits, amid equal bits, leave different registers |
| Crc16.OddErrorsDetected | core-supervisor/src/icmp_tunnel.rs:59-73 | bit strings that differ in an odd number of places leave different registers |
| CrcOrder.OrderOfX | core-supervisor/src/icmp_tunnel.rs:59-73 | modulo the polynomial, the powers of x that are one are those at the multiples of 32767 |
| TwoBitErrors.TwoErrorsEscape | core-supervisor/src/icmp_tunnel.rs:59-73 | bit strings that differ in two places leave the same register exactly when the distance is a multiple of 32767 |
| CrcStart.LeadingZeros | core-supervisor/src/icmp_tunnel.rs:59-73 | what the initial value is for: zero bytes in front of any data leave its checksum as it is exactly when their number is a multiple of 32767 |
| Icmp.EncodePayload | core-supervisor/src/icmp_tunnel.rs:18-27 | the header fields, the data and its checksum, in place |
| Icmp.FrameBytes | core-supervisor/src/icmp_tunnel.rs:18-27 | on the bytes: 0xAE 0x11, number and length with the high byte first, the data, the checksum |
| Icmp.EmptyFrame | core-supervisor/src/icmp_tunnel.rs:18-27 | the eight bytes of a frame without data |
| Icmp.RoundTrip | core-supervisor/src/icmp_tunnel.rs:18-50 | a frame decodes to its number and data exactly when the data is shorter than 65536 bytes |
| Icmp.DecodeIffFrame | core-supervisor/src/icmp_tunnel.rs:30-50 | any bytes are accepted exactly when they begin with a frame, and as its number and data |
| Icmp.DecodeErrors | core-supervisor/src/icmp_tunnel.rs:30-50 | for every payload, exactly when each of the three errors is returned |
| Icmp.BurstRejected | core-supervisor/src/icmp_tunnel.rs:30-50 | any change within 16 consecutive bits of data and checksum is a checksum mismatch |
| Icmp.OddChangeRejected | core-supervisor/src/icmp_tunnel.rs:30-50 | so is any change of an odd number of bits |
| Icmp.TwoBitChange | core-supervisor/src/icmp_tunnel.rs:30-50 | a change of two bits is a checksum mismatch exactly when their distance is no multiple of 32767 |
| Icmp.AdjacentBytesRejected | core-supervisor/src/icmp_tunnel.rs:30-50 | and any replacement of two adjacent bytes, unless by themselves |
| Icmp.IcmpTunnel.Encapsulate | core-supervisor/src/icmp_tunnel.rs:94-100 | frames carry consecutive numbers, wrapping at 65536 |
| Icmp.IcmpTunnel.Decapsulate | core-supervisor/src/icmp_tunnel.rs:103-110 | a frame is filed under its number and its data returned; a bad one changes nothing |
| Base64Url.DecodeIffEncoded | antiforgery/src/token.rs:264-266 | a text decodes exactly when it is the one encoding of the bytes it decodes to (section 5 of RFC 4648) |
| Base64Url.EncodedGroup | antiforgery/src/token.rs:192-204 | four characters, as digits of the alphabet of section 5 of RFC 4648, spell three bytes to the base 64; the last group is one character longer than its bytes |
| Pae.Encode | antiforgery/src/token.rs:281-297 | the loop writes count, lengths and pieces, and fails exactly when one does not fit |
| Pae.LittleEndianAt | antiforgery/src/token.rs:281-297 | byte i of a length counts the 256^i |
| Pae.EncodingInjective | antiforgery/src/token.rs:281-297 | no two lists of pieces share an encoding |
| Token.SplitIffRendered | antiforgery/src/token.rs:246-275 | a text splits into message and footer exactly when it is the one spelling of them |
| Token.SplitErrors | antiforgery/src/token.rs:246-275 | exactly when a text is malformed, and when badly encoded |
| Token.Issue | antiforgery/src/token.rs:176-205 | the buffer and string operations yield the specified token, or its error |
| Token.IssuedIff | antiforgery/src/token.rs:176-205 | a token is made for every payload but the empty one, as long as the lengths fit 64 bits, and is the encoded payload and signature behind "v4.public.", and before the encoded footer if there is one |
| Token.SignedLayout | antiforgery/src/token.rs:176-205 | what is signed, byte by byte: four, then "v4.public.", payload, footer and implicit assertion, in this order and each behind its length |
| Token.VerifyRendered | antiforgery/src/token.rs:208-244 | for every message and footer, which error their token meets or what it verifies to, in the order of the checks |
| Token.IssuedVerifies | antiforgery/src/token.rs:176-244 | every issued token splits and verifies back to its payload and footer, and fails for another expected footer |
| Token.AcceptedWasSigned | antiforgery/src/token.rs:208-244 | if nothing presented verifies but what the key signed, an accepted token's payload, footer and implicit assertion are exactly those signed |
| Token.IssuedAndOnlyIssued | antiforgery/src/token.rs:176-244 | with a scheme whose signatures verify and nothing forged: every issued token verifies, and every accepted one was issued |
| Token.HonestUse | antiforgery/src/token.rs:176-244 | presenting issued tokens is no forgery, under every scheme whose signatures verify |
| Token.AcceptedIffIssued | antiforgery/src/token.rs:176-244 | if signatures are unique, the accepted tokens with a payload are the ones the issuer makes, character for character |
| Token.AcceptedIffSigned | antiforgery/src/token.rs:176-244 | and if nothing is forged either, they are exactly the tokens that were issued |
| ReplayRing.RingRefinesLog | core-supervisor/src/buffer_replay.rs:81-127 | every run of the ring is a run of an append-only log with a low-water mark |
| ReplayRing.RunInvariants | core-supervisor/src/buffer_replay.rs:81-127 | the ring holds the last frames pushed, numbered without gaps, unaltered, hops not increasing from old to new; pushed is pending, plus the sum of what the acknowledgements returned, plus the drop counter, plus what replays took out |
| ReplayRing.HopsAreReplays | core-supervisor/src/buffer_replay.rs:117-127 | the hop count of every frame held is the number of replays that handed it out |
| ReplayRing.ReplayBound | core-supervisor/src/buffer_replay.rs:117-127 | no frame, held or gone, is handed out more than the maximum |
| ReplayRing.RingBufferReplay.Push | core-supervisor/src/buffer_replay.rs:81-96 | takes the push step, evicting the oldest when full, and returns the number |
| ReplayRing.RingBufferReplay.Ack | core-supervisor/src/buffer_replay.rs:100-105 | takes the acknowledge step and counts what it retired |
| ReplayRing.RingBufferReplay.ReplayAll | core-supervisor/src/buffer_replay.rs:117-127 | takes the replay step and returns what is then held |
| ReplayRing.RingBufferReplay.OnLossSpike | core-supervisor/src/buffer_replay.rs:131-137 | replays exactly above the threshold |
| Tunnel.FrameLayer | core-supervisor/src/multi_tunnel.rs:71-86 | appends the pieces of the frame |
| Tunnel.FrameBytes | core-supervisor/src/multi_tunnel.rs:63-86 | on the bytes: the letter of the role, length of the name, name, overhead and length with the highest byte first, body, and zeros for the overhead |
| Tunnel.UnframePrefix | core-supervisor/src/multi_tunnel.rs:89-119 | what every prefix of a frame unwraps to, including when the length field has overflowed |
| Tunnel.UnframeIff | core-supervisor/src/multi_tunnel.rs:89-119 | any bytes unwrap to a body exactly when they begin with a whole frame of it, of whatever layer |
| Tunnel.UnframeErrors | core-supervisor/src/multi_tunnel.rs:89-119 | for every buffer, exactly when its tag is bad and when it is truncated |
| Tunnel.RoundTrip | core-supervisor/src/multi_tunnel.rs:168-185 | decapsulation returns the payload exactly when the outermost length field does not overflow |
| Tunnel.WireLength | core-supervisor/src/multi_tunnel.rs:168-174 | the wire length is the payload plus ten, name and overhead per layer |
| Tunnel.StrictPrefixTruncated | core-supervisor/src/multi_tunnel.rs:178-185 | every strict prefix of the wire bytes is reported as truncated |
| Tunnel.ReplayedFramesDecapsulate | core-supervisor/src/multi_tunnel.rs:168-201 | frames in the ring after any run decapsulate to the payloads they were made from |
| Tunnel.TunnelCascade.Encapsulate | core-supervisor/src/multi_tunnel.rs:168-174 | the loop wraps the last layer first |
| Tunnel.TunnelCascade.Decapsulate | core-supervisor/src/multi_tunnel.rs:178-185 | the loop unwraps from the outside and returns the first error |
| Tunnel.TunnelCascade.Hop | core-supervisor/src/multi_tunnel.rs:198-201 | replaces the transport and counts |
| Draws.DrawComesUp | core-supervisor/src/probe_cadence.rs:286-292 | the seeds run through all of 64 bits, so for every name every draw follows from some seed |
| Draws.FirstDraw | core-supervisor/src/probe_cadence.rs:388-393 | the default seed's first draw for the name `f`, through the name's hash and the exclusive-or, is a multiple of 51 |
| Cadence.JitterBounds | core-supervisor/src/probe_cadence.rs:388-400 | jitter keeps an interval within a quarter either way |
| Cadence.FailuresSinceSuccess | core-supervisor/src/probe_cadence.rs:283-325 | over every run, a transport's failure count is the number of its failures since its last success, cut at 2^32 - 1 |
| Cadence.BackOffOfRuns | core-supervisor/src/probe_cadence.rs:283-325 | over every run, a failure after n others since the last success schedules the transport within a quarter of the larger of half a second doubled n + 1 times, at most eight, and the level's interval |
| Cadence.StatsTally | core-supervisor/src/probe_cadence.rs:262-350 | the four counters are the numbers of probes let through, probes held back, successes and wake-ups of the run |
| Cadence.NoFasterThanBase | core-supervisor/src/probe_cadence.rs:283-310 | for every transport, a failure is followed by at least the level's interval whatever the seed exactly when the failures in a row reach 1, 4, 7 or 8, by level |
| Cadence.GapIsTight | core-supervisor/src/probe_cadence.rs:223-310 | for every transport and every level slower than the floor there is a seed and a run of four calls in which it is probed twice, right at the gap |
| Cadence.FasterThanBase | core-supervisor/src/probe_cadence.rs:200-310 | with the default seed, in confirmed isolation, the transport `f` is probed at 0 and at 22.5 s |
| Cadence.ScheduleIsNear | core-supervisor/src/probe_cadence.rs:223-350 | under a clock that does not run backwards every transport is due within 160 s of the latest call, well inside the 300 s ceiling |
| Cadence.DeEscalationCaps | core-supervisor/src/probe_cadence.rs:223-241 | a less severe level brings every schedule that is further off in to its interval and leaves the others as they are; any other change of level leaves all |
| Cadence.DeEscalationRecovers | core-supervisor/src/probe_cadence.rs:223-350 | after a drop to a level, in every run without a failure of its own, a transport is due from the level's interval on |
| Cadence.RecoveryIsInstant | core-supervisor/src/probe_cadence.rs:317-350 | after a success or wake-up, in every run without a failure of its own, a transport is due at once and stays due |
| Cadence.ProbesAreSpaced | core-supervisor/src/probe_cadence.rs:223-310 | in every run in which a transport keeps failing at level L or above, its permitted probes are at least three quarters of L's interval apart |
| Cadence.ProbeRateBounded | core-supervisor/src/probe_cadence.rs:223-310 | so their number in any stretch of time is bounded |
| Cadence.ProbesAreCounted | core-supervisor/src/probe_cadence.rs:262-276 | the per-transport counter is the number of permitted probes of the run |
| Cadence.ProbeCadence.SetLevel | core-supervisor/src/probe_cadence.rs:223-241 | the loop caps every entry when the level falls, and changes nothing else |
| Cadence.ProbeCadence.TryProbe | core-supervisor/src/probe_cadence.rs:262-276 | permits exactly what is due, counts it either way |
| Cadence.ProbeCadence.NoteFailure | core-supervisor/src/probe_cadence.rs:283-310 | advances the seed and schedules by back-off, floor, ceiling and jitter |
| Cadence.ProbeCadence.NoteSuccess | core-supervisor/src/probe_cadence.rs:317-325 | makes the transport due and ends its back-off, counting the reset |
| Cadence.ProbeCadence.ForceDue | core-supervisor/src/probe_cadence.rs:333-340 | makes one transport due |
| Cadence.ProbeCadence.ForceAllDue | core-supervisor/src/probe_cadence.rs:343-350 | makes every known transport due |
| DnsName.SkipName | core-supervisor/src/live_signals.rs:810-830 | the loop terminates in bounds and computes the recursive skip |
| DnsName.SkipIffName | core-supervisor/src/live_signals.rs:810-830 | it ends at e exactly when a name of sections 3.1 and 4.1.4 of RFC 1035 lies up to e |
| DnsName.EncodeName | core-supervisor/src/live_signals.rs:717-741 | appends the labels behind their lengths, or fails exactly on a name that is empty, too long or has a bad label |
| DnsName.EncodedIsName | core-supervisor/src/live_signals.rs:717-741 | an encoded name is a name, two bytes longer than its text, at most 255 bytes |
| DnsName.EncodedSpells | core-supervisor/src/live_signals.rs:717-741 | what is written for a name reads back as its labels, which joined by dots are the name without the dots at its end |
| DnsName.EncodableIffSpelled | core-supervisor/src/live_signals.rs:717-741 | a name is written exactly if it is labels of 1 to 63 letters, digits, hyphens and underscores joined by dots, 253 characters at most, and any number of dots |
| DnsName.SkipLandsPastEncoded | core-supervisor/src/live_signals.rs:717-830 | skipping lands exactly past any encoded name, wherever it stands |
| DnsMessage.ParseAnswers | core-supervisor/src/live_signals.rs:743-800 | the loops, on any bytes, terminate in bounds and compute the answers that the members below pin down |
| DnsMessage.AcceptedHeader | core-supervisor/src/live_signals.rs:748-759 | whatever is accepted has twelve bytes, the id asked for, and flags of a response that is not truncated and has no error code |
| DnsMessage.AddressesSelected | core-supervisor/src/live_signals.rs:768-799 | the addresses are, in order, the data of the records of class 1 and the type asked for; there are none if one of these is ill-sized, or of a type other than 1 and 28 |
| DnsMessage.RenderedIsRead | core-supervisor/src/live_signals.rs:743-800 | any message whose third and fourth bytes say response, not truncated, no error code is read as the addresses of its records |
| DnsMessage.ReadIsRendered | core-supervisor/src/live_signals.rs:743-800 | whatever bytes are accepted are the rendering of such a message with just these addresses |
| DnsMessage.HeaderBytes | core-supervisor/src/live_signals.rs:743-765 | in a rendering id, flags and counts stand with the high byte first |
| DnsMessage.RecordBytes | core-supervisor/src/live_signals.rs:768-776 | and so do type, class and length of a record, behind its name |
| DnsMessage.WriteQuestion | core-supervisor/src/live_signals.rs:703-715 | the bytes written are the rendering of the query message |
| DnsMessage.QueryOnWire | core-supervisor/src/live_signals.rs:703-715 | these bytes, one by one: header with one question and recursion desired, name, type, class 1 |
| DnsMessage.ReplyIsRead | core-supervisor/src/live_signals.rs:703-800 | a reply that repeats the question and adds records is read as the addresses of those records |
| DnsMessage.AllAnswers | core-supervisor/src/live_signals.rs:768-799 | well-sized answers of the type asked for give one address each, in order |
| ReplayGuard.HoldsTheUnexpired | antiforgery/src/replay.rs:42-57 | in every run of checks and prunes, under any clock, the map is exactly the accepted nonces that no later call has outlived, with their expiries |
| ReplayGuard.RefusedIff | antiforgery/src/replay.rs:42-57 | in every run of checks and prunes, under any clock, exactly when a check is refused |
| ReplayGuard.RefusedWithinTtl | antiforgery/src/replay.rs:42-57 | under a clock that does not run backwards: refused exactly when accepted less than the time to live ago |
| ReplayGuard.TracksTheLastTtl | antiforgery/src/replay.rs:42-57 | under such a clock, after every call the nonces tracked are exactly those accepted within the last time to live |
| ReplayGuard.BackwardClock | antiforgery/src/replay.rs:42-57 | a prune at a later time than the next check can bring a nonce back early |
| ReplayGuard.Guard.CheckAndRecord | antiforgery/src/replay.rs:42-52 | prunes, then refuses or records |
| ReplayGuard.Guard.Prune | antiforgery/src/replay.rs:55-57 | keeps exactly what has not expired |
| Refresh.UnambiguousIff | antiforgery/src/replay.rs:136-144 | the tagged message stands for one id, nonce and time exactly when id and nonce are free of the separator byte |
| Refresh.MessageLayout | antiforgery/src/replay.rs:136-144 | the tagged message on its bytes: id, zero, nonce, zero, and the time in eight bytes, the highest first, in two's complement |
| Refresh.AcceptedIff | antiforgery/src/replay.rs:86-113 | after any rotations, a tag is accepted exactly near its time, for its own message, under one of the last two keys, where keys with one key block count as one; and reported stale exactly when it is not near its time |
| Refresh.PaddedKeys | antiforgery/src/replay.rs:116-122 | a key shorter than a block and the same key followed by a zero are one key |
| Refresh.RefreshVerifier.Rotate | antiforgery/src/replay.rs:86-88 | demotes the current key and forgets the one before |
| Refresh.RefreshVerifier.Check | antiforgery/src/replay.rs:92-113 | stale first, then either key, then the failure |

## Left out

- SHA-256, Ed25519, HMAC and `v4.local` encryption: foreign code; parameters, or left out.
- Claims: their JSON form and expiry checks in `antiforgery/src/token.rs` would add easy members.
- `Frame::sent_at`: the time stamp of a buffered frame is never read by the ring.
- `level_from_blackout` and the statistics ratios of the governor: one-branch facts.
- The measurement window of `live_signals.rs`, its sockets, TLS and configuration: input and output, and counters with easy bounds.
- Overflow of times and counters at 64 bits, and interleavings finer than one locked method.
- Rounding in `for_loss` and `observe_loss`: the model computes with real numbers.
- Handshakes, racing, fallback transports, chaff, anomaly detection, forecasting, policy, audit and device code, the dashboard, training and kernel parts of the repository: wrappers, timing, floating-point thresholds or user interface.
