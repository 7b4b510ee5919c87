# Models of fluxrpc/solana-go

A Dafny model of the parts of the Go library with the most to get right, and proofs about them. Everything is stated for all inputs, all runs or all reachable states.

- **Confidential transfers** (Token-2022): the aggregated Bulletproofs range proof with its folding inner-product argument, the equality, validity and percentage-with-cap proofs, twisted ElGamal balances, fee arithmetic, and the baby-step giant-step decoder (`Residues`, `Vectors`, `Transcripts`, `InnerProduct`, `RangeProof*`, `SigmaProofs`, `EqualityProofs`, `ValidityProofs`, `PercentageProofs`, `ElGamal`, `DiscreteLog`, `Balances`, `ConfidentialTransfers`, `Fees`, `FeeTransfers`).
- **The transaction compiler** `NewTransaction`: it preserves what instructions mean, and exactly when it preserves the roles they ask for (`TransactionCompiler`, `Compiler*`).
- **Wire codecs**: shortvec and varints, messages, transactions and version 1 transactions (`Varints`, `BinaryCodec`, `Wire*`, `TransactionV1*`), and the way from compiled instructions to bytes and back (`CompiledOnWire`).
- **The incremental JSON scanner** of the streaming client and its batches (`JsonScan`, `JsonBatches`, `JsonScanner`).
- **The WebSocket subscription protocol** as a machine of atomic steps (`WsProtocol`, `WsClient`).
- **The sharded account cache** (`AccountCache`, `CacheClient`).

`dafny verify dfyconfig.toml` checks the whole project.

## How the model is built

Specifications are functions; the source's loops, in-place updates and mutable objects are methods and classes proved to compute them (`RangeProofLoops`, `CompilerLoops`, `WireLoops`, `TransactionV1Loops`, and the classes). Theorems are about the functions.

- **The group.** Ristretto255 has prime order (section 4 of RFC 9496), so a point is its discrete logarithm and a scalar an integer, both kept unreduced; encodings and comparisons take residues. Theorems hold for any prime order, any bases and any generator chains; the decoder alone needs an order beyond 32 bits, and reading the supply one beyond 65.
- **Transcripts and randomness.** A transcript is the sequence of what was appended and extracted; challenges are an arbitrary function of it. Nonces and openings are arguments. Where a verifier inverts a challenge, the theorems take it to be nonzero.
- **Words.** A 32-byte group of a proof or context is one word; a word encodes a scalar or a point when it is canonical, below the group order, and verifiers refuse the others.
- **Keys.** The compiler orders keys by their bytes, so there a key is the number its bytes spell; in the codecs it is the 32 bytes. `CompiledOnWire` relates the two.
- **Integers.** Sixty-four-bit words, eight-bit header counters and sixteen-bit indexes wrap where the source's do; lengths and slots are natural numbers.
- **Time, network and decoders** are arguments: the clock of the cache, the values fetched, the pieces a reader hands out, the JSON decoder. Of the decoder `JsonBatches.Elementwise` asks what section 5 of RFC 8259 says of arrays, and `JsonBatches.DecoderExists` shows that it can be met whatever a single account decodes to.

## Where code and documentation differ

- `NewTransaction` is documented to make an account writable when any instruction asks. Deduplication raises writability after the sort, so a key can keep a read-only signer's place: `CompilerRoles.RolesExact` gives the exact condition and `CompilerRoles.ThreeSignerCounterexample` an input.
- `Close` is documented to end every subscription's `Recv`. A subscription whose id the server gave to a newer one is no longer in the map and is not closed: `WsProtocol.EndReachesReceiver` gives the exact condition and `WsProtocol.DisplacedReceiverIsNotWoken` a run.
- The scanner's end-of-input branch uses an offset from before the buffer was compacted. `JsonScanner.WholeExact` says exactly when it still returns the value, in terms of where the pieces of the input end; `JsonScanner.Scanner.ScanFrom` says it in terms of the scanner's state; `JsonScanner.SpaceTwelve` shows three bytes that give `2` in one piece and `12` in two.
- `streamAccounts` hands over a batch whenever the buffer runs dry, which should not matter. Behind a trailing comma it does, because an empty batch decodes where a comma before the bracket does not: `JsonBatches.PiecesMatter` gives the exact condition and `JsonScanner.ObjectCommaStreamed` an input, four bytes refused in one piece and accepted in two.
- Encoding a transaction pads missing signatures, so a transaction short of signatures decodes but does not re-encode to its bytes: `WireTheorems.TransactionCanonical` is the exact statement and `WireTheorems.UnsignedNotCanonical` shows 38 such bytes.

## Model

| member | source | states |
|---|---|---|
| `InnerProduct.FoldRound` | programs/token-2022/confidential_range_inner_product.go:33-105 | for vectors of any even length, one folding round turns <a,g>+<b,h>+<a,b>Q into itself plus u²L plus u⁻²R, up to the group order |
| `InnerProduct.RoundsSound` | programs/token-2022/confidential_range_inner_product.go:33-108 | over all rounds, the statement plus every challenge-weighted L and R equals the final two scalars against the generators weighed by products of challenges and inverses |
| `InnerProduct.WeightsReverse` | programs/token-2022/confidential_range_inner_product.go:142-149 | reading the weights backwards exchanges every challenge with its inverse, which is why one table serves both generator lists |
| `InnerProduct.WeightTableCorrect` | programs/token-2022/confidential_range_inner_product.go:134-149 | the recurrence s[i] = s[i - 2^k]·u² started from the product of all inverses yields exactly the weights of the folding, up to the group order |
| `InnerProduct.ReplayAgrees` | programs/token-2022/confidential_range_inner_product.go:111-133 | a verifier replaying the transcript of an honest proof meets the prover's challenges and ends in the prover's transcript |
| `InnerProduct.InnerProductComplete` | programs/token-2022/confidential_range_inner_product.go:18-151 | for every power-of-two size, prover and verifier together: the verifier's scalars open the proof against Σ s[i]g[i] and Σ s[n-1-i]h[i], h being scaled by its factors; an honest proof is refused exactly for an identity among L and R |
| `InnerProduct.NewInnerProductProof` | programs/token-2022/confidential_range_inner_product.go:18-109 | the in-place halving loop with its special first round computes the plain argument on h scaled by its factors, and refuses exactly mismatched or non-power-of-two lengths |
| `InnerProduct.FoldInPlace` | programs/token-2022/confidential_range_inner_product.go:85-100 | folding in place leaves the folded halves in the first half and the second half untouched |
| `InnerProduct.FoldScaledInPlace` | programs/token-2022/confidential_range_inner_product.go:93-96 | the first round's fold scales h by its factors on the way |
| `InnerProduct.RoundPoints` | programs/token-2022/confidential_range_inner_product.go:47-75 | the appended scalar and point lists, in either form of the round, multiply out to the cross points L and R |
| `InnerProduct.VerificationScalarsLoop` | programs/token-2022/confidential_range_inner_product.go:111-151 | the verifier's loops compute the specified scalars, or nothing for wrong lengths or for a word that encodes no point or the identity |
| `InnerProduct.WeightTableLoop` | programs/token-2022/confidential_range_inner_product.go:142-149 | the loop fills exactly the recurrence's table |
| `InnerProduct.RangeLog2` | programs/token-2022/confidential_range_inner_product.go:201-208 | the shift loop returns the logarithm: 2^r ≤ n < 2^(r+1) |
| `Vectors.ScalarInnerProduct` | programs/token-2022/confidential_range_generators.go:112-121 | the accumulating loop is the inner product, refused exactly for different lengths |
| `Vectors.ScalarPowerSum` | programs/token-2022/confidential_range_generators.go:134-141 | the running power sums 1 + b + … + b^(n-1) |
| `Vectors.ScalarPowers` | programs/token-2022/confidential_range_generators.go:123-132 | the running power lists 1, b, …, b^(n-1) |
| `RangeProof.ConstantCoefficient` | programs/token-2022/confidential_range.go:244-265 | the constant coefficient of the inner product of the two vector polynomials is Σ z^(2+j)·v_j plus delta(y,z), with v_j the part of amount j its bit length covers |
| `RangeProof.CoefficientsEvaluate` | programs/token-2022/confidential_range_generators.go:77-110 | the three coefficients evaluate, at every x, to the inner product of the evaluated polynomials |
| `RangeProof.BitsValue` | programs/token-2022/confidential_range.go:244-269 | the concatenated bits weighed by z^j·2^i add up to Σ z^j·(amount j modulo its bound) |
| `RangeProof.SameChallenges` | programs/token-2022/confidential_range.go:181-338 | the verifier derives from an honest proof the challenges the prover met, in the same order from the same transcript |
| `RangeProof.VectorSumVanishes` | programs/token-2022/confidential_range.go:420-502 | the part of the verifier's sum that carries vectors vanishes for an honest proof |
| `RangeProof.ScalarSumResidual` | programs/token-2022/confidential_range.go:420-502 | the rest of the sum is the challenge times z² times the weighted errors of the commitments, exactly |
| `RangeProof.HonestProofAccepted` | programs/token-2022/confidential_range.go:181-504 | for arbitrary commitments and amounts of any size, an honest proof is accepted if and only if none of its points is the identity and the weighted errors of the commitments vanish |
| `RangeProof.RangeProofComplete` | programs/token-2022/confidential_range.go:181-504 | amounts below 2^length with matching commitments are accepted unless a proof point is the identity |
| `RangeProof.SingleAmountExact` | programs/token-2022/confidential_range.go:181-504 | for one amount the accepted commitments are exactly those to the amount modulo 2^length under the opening used |
| `RangeProofLoops.NewBatchedRangeProof` | programs/token-2022/confidential_range.go:181-338 | the prover's nested loops, with their running positions and powers, compute the specified proof |
| `RangeProofLoops.VerifyBatchedRangeProof` | programs/token-2022/confidential_range.go:367-504 | the verifier's loops decide the specified acceptance, both ways, words that encode no point refused |
| `RangeProofLoops.AddBits` | programs/token-2022/confidential_range.go:198-209 | adding g for a one bit and subtracting h for a zero bit is the commitment to the bits and their complements |
| `RangeProofLoops.VectorPolynomials` | programs/token-2022/confidential_range.go:244-269 | the loop with running yⁿ, z^j and 2^i fills the two vector polynomials |
| `RangeProofLoops.DeltaLoop` | programs/token-2022/confidential_range.go:506-520 | the loop computes (z - z²)·Σyⁱ - Σ z^(3+j)·Σ2ⁱ |
| `RangeProofLoops.PolynomialInnerProduct` | programs/token-2022/confidential_range_generators.go:77-102 | three inner products and two differences give the coefficients of the product |
| `RangeProofLoops.GeneratorScalars` | programs/token-2022/confidential_range.go:438-453 | the scalars of both generator lists, the h half read backwards and divided by powers of y |
| `RangeProofData.ParseContext` | programs/token-2022/confidential_range.go:137-172 | eight slots are accepted exactly when commitments with lengths 1 to 64 come first and only zero padding follows, and exactly the leading slots are returned |
| `RangeProofData.ContextRoundTrip` | programs/token-2022/confidential_range.go:110-172 | what the prover writes into the context the verifier reads back |
| `RangeProofData.MarshalRoundTrip` | programs/token-2022/confidential_range.go:522-569 | encoding then parsing a proof returns it |
| `RangeProofData.ParseInverse` | programs/token-2022/confidential_range.go:522-569 | an accepted encoding is the encoding of what it parses to |
| `RangeProofData.MarshalInner` | programs/token-2022/confidential_range_inner_product.go:153-170 | the appending loop interleaves left and right points and ends with the two scalars |
| `RangeProofData.GenerateSucceeds` | programs/token-2022/confidential_range.go:24-50 | a proof is generated exactly for total lengths 64, 128 and 256 and well-formed inputs: the announced proof length is always met |
| `RangeProofData.GeneratedProofVerifies` | programs/token-2022/confidential_range.go:24-78 | from inputs to verdict through context, transcript and encoding: accepted if and only if no proof point is the identity and the weighted errors vanish |
| `RangeProofData.GeneratedProofComplete` | programs/token-2022/confidential_range.go:24-78 | amounts within their bounds under matching commitments: generated, and accepted unless a proof point is the identity |
| `SigmaProofs.ProvedSum` | programs/token-2022/confidential_equality.go:84-91 | prover against verifier for any system of linear relations and any secrets: the batched check vanishes if and only if the challenge times the batched defects of the secrets does |
| `SigmaProofs.HonestRow` | programs/token-2022/confidential_equality.go:79-83 | a row of the check misses by the challenge times what the secrets miss |
| `EqualityProofs.CommitmentCheckBatched` | programs/token-2022/confidential_equality.go:277-305 | the verifier's eleven terms are the three relations weighed by powers of the batching challenge |
| `EqualityProofs.CommitmentEqualityComplete` | programs/token-2022/confidential_equality.go:176-307 | a proof is generated exactly for a matching key, ciphertext, commitment and opening, and then accepted if and only if every word checked encodes a point other than the identity |
| `EqualityProofs.CiphertextCheckBatched` | programs/token-2022/confidential_equality.go:140-168 | the verifier's fourteen terms are the four relations weighed by powers of the batching challenge |
| `EqualityProofs.CiphertextEqualityComplete` | programs/token-2022/confidential_equality.go:21-170 | the same for two ciphertexts under different keys |
| `ValidityProofs.SumTerms` | programs/token-2022/confidential_validity.go:262-283 | the loop that appends three terms a key with a running power computes the batched sum of all relations, for any number of keys |
| `ValidityProofs.CheckValidity` | programs/token-2022/confidential_validity.go:117-170 | the verifier's loops decide the specified acceptance, words that encode no point refused |
| `ValidityProofs.CombinePoints` | programs/token-2022/confidential_validity.go:152-158 | two ciphertexts combine point by point with the challenge |
| `ValidityProofs.ValidityComplete` | programs/token-2022/confidential_validity.go:74-284 | for one ciphertext or two and any number of keys: generated exactly for encryptions of the given amounts, and then accepted if and only if every word encodes a point and no checked one is the identity |
| `PercentageProofs.CapCheckRows` | programs/token-2022/confidential_percentage.go:155-181 | the verifier's twelve terms are the cap relation and two remainder relations, batched |
| `PercentageProofs.AboveSum` | programs/token-2022/confidential_percentage.go:188-211 | at the cap, with the remainder half simulated, the check vanishes for every batching challenge |
| `PercentageProofs.BelowSum` | programs/token-2022/confidential_percentage.go:213-241 | below the cap, with the cap half simulated, the check vanishes for every batching challenge |
| `PercentageProofs.CapComplete` | programs/token-2022/confidential_percentage.go:33-186 | both branches: generated exactly when the prover's checks hold, and then accepted if and only if every word checked encodes a point other than the identity |
| `ElGamal.EncryptDecrypts` | programs/token-2022/confidential_encryption.go:303-324 | every recipient of a grouped ciphertext decrypts it to the amount |
| `ElGamal.KeyLaw` | programs/token-2022/confidential_keys.go:113-131 | a secret times its derived public key is the blinding base |
| `ElGamal.AddDecrypts` | programs/token-2022/confidential_encryption.go:338-357 | the sum of two ciphertexts decrypts to the sum |
| `ElGamal.SubtractDecrypts` | programs/token-2022/confidential_encryption.go:338-357 | the difference of two ciphertexts decrypts to the difference |
| `ElGamal.ScaleDecrypts` | programs/token-2022/confidential_arithmetic.go:10-20 | a scaled ciphertext decrypts to the scaled amount |
| `ElGamal.SubtractAmountDecrypts` | programs/token-2022/confidential_encryption.go:359-369 | taking a public amount off decrypts to the difference |
| `ElGamal.CombineDecrypts` | programs/token-2022/confidential_arithmetic.go:22-28 | two halves combine to low + 2^16·high |
| `ElGamal.SumWithheld` | programs/token-2022/confidential_fee_composed.go:170-179 | the running total over any list of accounts decrypts to the sum of what they withhold |
| `DiscreteLog.Build` | programs/token-2022/confidential_service.go:65-72 | a worker fills its own slots j with (j·G, j) and touches no other |
| `DiscreteLog.Fill` | programs/token-2022/confidential_service.go:50-57 | for any number of workers finishing in any order, every slot is filled |
| `DiscreteLog.ChunksApart` | programs/token-2022/confidential_service.go:51-56 | the chunks of two workers share no slot, so their writes may interleave in any way |
| `DiscreteLog.BuildTable` | programs/token-2022/confidential_service.go:49-63 | the table maps exactly the first 65536 multiples of the base to their factors |
| `DiscreteLog.Decode` | programs/token-2022/confidential_discrete_log.go:65-79 | returns v if and only if v < 2^32 and the target is v·G, and nothing otherwise |
| `Balances.DecryptU32` | programs/token-2022/confidential_discrete_log.go:57-63 | returns v if and only if v < 2^32 and the ciphertext decrypts to v |
| `Balances.DecryptPendingBalance` | programs/token-2022/confidential_discrete_log.go:42-55 | found exactly when the low half holds 16 bits and the high half 32, as low + 2^16·high |
| `Balances.DecryptSupply` | programs/token-2022/confidential_balances.go:96-117 | returns the true supply exactly when it lies less than 2^32 below the known amount, and nothing otherwise |
| `ConfidentialTransfers.SplitAmount` | programs/token-2022/confidential_encryption.go:226-235 | split exactly below 2^48, into halves that combine to the amount |
| `ConfidentialTransfers.RecipientGetsAmount` | programs/token-2022/confidential_composed.go:133-156 | every holder of one of the keys decrypts the two halves, and their combination to exactly the amount moved |
| `ConfidentialTransfers.MoveKeepsStep` | programs/token-2022/confidential_composed.go:133-212 | from a ciphertext in step with its plaintext, the new ciphertext decrypts to the new amount; refused exactly beyond 48 bits, on overflow or for lack of funds |
| `ConfidentialTransfers.ApplyKeepsStep` | programs/token-2022/confidential_composed.go:48-79 | the same for one operation of any kind, withdrawals included |
| `ConfidentialTransfers.RunKeepsStep` | programs/token-2022/confidential_composed.go:48-212 | over every run of transfers, burns, mints and withdrawals the ciphertext decrypts to the plaintext amount, which stays within 64 bits and has changed by the sum of what the operations moved |
| `ConfidentialTransfers.MoveProofsVerify` | programs/token-2022/confidential_mint_burn_composed.go:21-69 | the equality and validity proofs of any move are generated, and verify if and only if the words they show encode points and no checked one is the identity |
| `ConfidentialTransfers.MoveRangeVerifies` | programs/token-2022/confidential_composed.go:214-234 | the four values fit 64, 16, 32 and 16 bits, so the range proof is generated and accepted unless a proof point is the identity |
| `Fees.FeeExact` | programs/token-2022/confidential_fee.go:8-27 | fee = min(maximum, ⌈amount·bp/10000⌉) ≤ amount, remainder in 0..9999, refused exactly above 10000 basis points: the division never traps and the overflow branch is dead |
| `Fees.Numerator` | programs/token-2022/confidential_fee.go:12-14 | multiplying and adding in two words with a carry is exact and leaves a high word below 10000 |
| `FeeTransfers.JoinedOpened` | programs/token-2022/confidential_arithmetic.go:92-110 | combining commitments and openings of two halves commits to low + 2^16·high under the combined opening |
| `FeeTransfers.PlanConsistent` | programs/token-2022/confidential_fee_composed.go:43-112 | once the amount was accepted only too many basis points stop the flow: the fee splits, amount - fee does not wrap, and all eight values fit their bit lengths |
| `FeeTransfers.DerivedOpened` | programs/token-2022/confidential_fee_composed.go:71-93 | the derived commitments to amount, fee, rounding and net amount are commitments to those values under the derived openings |
| `FeeTransfers.FeeProofsVerify` | programs/token-2022/confidential_fee_composed.go:102-109 | the percentage proof, in whichever branch, and the fee's validity proof are generated, and verify if and only if the words they show encode points and no checked one is the identity |
| `FeeTransfers.FeeCommitmentsMatch` | programs/token-2022/confidential_fee_composed.go:239-262 | all eight commitments of the range proof match their values and openings |
| `FeeTransfers.FeeRangeVerifies` | programs/token-2022/confidential_fee_composed.go:239-262 | the range proof over all eight values, 256 bits in all, is generated and accepted unless a proof point is the identity |
| `TransactionCompiler.SortCorrect` | transaction_builder.go:192-208 | sorting is a permutation in the order signers, writable, key |
| `TransactionCompiler.SortUnique` | transaction_builder.go:192-208 | the order leaves no freedom: any sorted permutation is the same list |
| `CompilerMeaning.DedupCorrect` | transaction_builder.go:194-222 | after sorting and deduplication every key stands once, a signer exactly when some meta asks and writable exactly when some meta asks |
| `CompilerMeaning.OrderingCorrect` | transaction_builder.go:224-234 | with the payer in front: exactly the mentioned keys and the payer, each once, with the roles asked for |
| `CompilerMeaning.PlanDistinct` | transaction_builder.go:240-273 | static and table-loaded keys partition the mentioned keys, and every loaded key stands in its table at its index |
| `CompilerMeaning.LookupsResolve` | transaction_builder.go:275-321 | resolving the lookups against the tables gives the loaded keys, by table and writability, in index order |
| `CompilerMeaning.MeaningPreserved` | transaction_builder.go:115-342 | every lookup resolves; the resolved list holds exactly the mentioned keys and the payer, each once, the payer first; and up to 65536 keys every compiled index resolves to the key its instruction named |
| `CompilerRoles.RolesExact` | transaction_builder.go:194-273 | up to 255 static keys: signers are exactly the keys some meta or the payer makes signers; and header-derived writability agrees with what the metas ask for if and only if no read-only signer sorts before a signer that only a non-signer meta makes writable |
| `CompilerRoles.StaticInOrder` | transaction_builder.go:248-273 | static keys keep the order of the deduplicated list behind the payer |
| `CompilerRoles.LoadedRoles` | transaction_builder.go:275-321 | a table-loaded account is writable exactly when some meta asks |
| `CompilerRoles.ThreeSignerCounterexample` | transaction_builder.go:210-222 | three signers for which the header gives a key the wrong writability |
| `CompilerLoops.NewTransaction` | transaction_builder.go:115-342 | the source's passes, in place, compute the specified compilation, errors included |
| `CompilerLoops.FindPayer` | transaction_builder.go:125-138 | the option, else the first signer of the first instruction, else nothing |
| `CompilerLoops.IndexTables` | transaction_builder.go:144-170 | each address resolves to its first position in the smallest table that holds it; the first table of more than 256 entries is reported |
| `CompilerLoops.DedupInPlace` | transaction_builder.go:213-222 | the write cursor over the same array leaves the deduplicated list in front |
| `CompilerLoops.PlacePayer` | transaction_builder.go:227-234 | rotating the prefix, or copying when the payer is absent, puts the payer in front of the others in order |
| `CompilerLoops.SplitKeys` | transaction_builder.go:244-273 | one pass gives static keys, loaded accounts, static indexes and the eight-bit header counters |
| `CompilerLoops.PlaceLoaded` | transaction_builder.go:278-321 | the passes over tables and loaded accounts assign the indexes of the resolved list |
| `CompiledOnWire.CompiledSurvivesWire` | transaction_builder.go:115-342 | compiled, encoded, decoded in front of any bytes and resolved: with at most 256 keys every instruction still names its keys and data; the round trip holds if and only if a legacy message asks for fewer than 128 signatures |
| `CompiledOnWire.WireBack` | message.go:444-475 | a message whose numbers fit their fields is recovered from its wire form |
| `Varints.Decode16Exact` | shortvec.go:16-59 | the decoder accepts exactly the encodings of the numbers up to 65535, with their exact size, whatever follows |
| `Varints.AppendShortvecLen` | shortvec.go:16-22 | the shift loop appends the base-128 encoding |
| `Varints.ShortvecLen` | shortvec.go:25-32 | the size is exactly what is appended |
| `Varints.DecodeShortvecLen` | shortvec.go:36-59 | the three-turn loop decides what the specified decoder decides, with the same errors |
| `Varints.CanonicalEncodes` | shortvec.go:43-48 | a number has only one canonical encoding |
| `Varints.Decode64Exact` | binary/decoder.go:412-440 | the reader accepts exactly the encodings of the numbers below 2^64, whatever follows |
| `BinaryCodec.Decoder.ReadCompactU16` | binary/decoder.go:345-356 | fast path and slow path together read what the shortvec loop reads, with the same errors; the first error stays and nothing moves after it |
| `BinaryCodec.Decoder.ReadCompactU16Slow` | binary/decoder.go:360-407 | the unrolled reader agrees with the shortvec loop on every input |
| `BinaryCodec.Decoder.ReadVarUint64` | binary/decoder.go:412-440 | the loop reads what the specified decoder reads |
| `BinaryCodec.Encoder.WriteCompactU16` | binary/encoder.go:206-223 | the unrolled writer writes the shortvec encoding; a value out of range leaves the buffer alone |
| `BinaryCodec.Encoder.WriteVarUint64` | binary/encoder.go:227-236 | the loop writes the canonical encoding of every 64-bit number |
| `WireTheorems.MessageExact` | message.go:383-627 | the decoder reads m from the first k bytes if and only if those bytes are the encoding of m and the format can carry m |
| `WireTheorems.MessageRoundTrip` | message.go:383-627 | encoding then decoding in front of any bytes returns the message and leaves the rest, exactly for the messages the format can carry |
| `WireTheorems.TransactionRoundTrip` | transaction.go:81-136 | the same for transactions, exactly when no required signature is missing |
| `WireTheorems.TransactionCanonical` | transaction.go:115-136 | whatever the decoder accepts is the encoding of what it returns, if and only if no required signature is missing |
| `WireTheorems.ShortAccepted` | transaction.go:81-136 | the bytes of any transaction with the signatures it has are accepted as that transaction, and re-encode to themselves exactly when none is missing |
| `WireTheorems.UnsignedNotCanonical` | transaction.go:81-136 | 38 bytes that ask for a signature and hold none are accepted and do not re-encode to themselves |
| `WireTheorems.WalkRecovers` | transaction.go:65-78 | a buffer of concatenated transactions is walked back into those transactions, in order |
| `WireFormat.TransactionParses` | transaction.go:81-136 | an encoded transaction decodes with its missing signatures padded by zeros |
| `WireFormat.MessagePrinted` | message.go:484-627 | any accepted prefix re-encodes to itself |
| `WireLoops.BodySize` | message.go:429-441 | the size added up beforehand is exactly what is appended |
| `WireLoops.AppendBody` | message.go:444-475 | the appends print the body |
| `WireLoops.MarshalMessage` | message.go:383-425 | either version is encoded into exactly the size computed beforehand |
| `WireLoops.MarshalTransaction` | transaction.go:81-106 | signatures, zeros for missing ones and message, into exactly the size computed beforehand |
| `WireLoops.DecodeBody` | message.go:515-590 | the cursor-advancing decoder is the parser of the body |
| `WireLoops.DecodeTables` | message.go:594-627 | likewise for the lookups, with the bound on the claimed count |
| `WireLoops.UnmarshalMessage` | message.go:484-511 | the bytes consumed are exactly the encoding of the message returned |
| `WireLoops.UnmarshalTransaction` | transaction.go:115-136 | the bytes consumed are everything in front of what the parser leaves |
| `TransactionV1.MutualInverse` | transaction_v1.go:240-367 | the decoder returns tx for data if and only if the encoder returns data for tx |
| `TransactionV1.MarshalSize` | transaction_v1.go:199-257 | output length is signedSize + 64·signatures and at most 4096; encoding succeeds exactly for sanitized transactions of that size with all signatures |
| `TransactionV1.SizeExact` | transaction_v1.go:199-237 | the signed size computed beforehand is exact for every transaction |
| `TransactionV1.ValuesPrinted` | transaction_v1.go:66-110 | parsed config values reproduce the mask and re-encode to the bytes read |
| `TransactionV1.PayloadsPrinted` | transaction_v1.go:328-352 | instructions parsed from split headers and payloads re-encode to both |
| `TransactionV1Loops.Sanitize` | transaction_v1.go:150-195 | the checks, with a set of seen keys, decide the sanitization rules |
| `TransactionV1Loops.MarshalBinary` | transaction_v1.go:240-257 | the appending encoder is the specified one |
| `TransactionV1Loops.UnmarshalBinary` | transaction_v1.go:263-367 | the cursor-advancing decoder is the specified one |
| `TransactionV1Loops.AppendSigned` | transaction_v1.go:211-237 | the appends print the signed prefix |
| `TransactionV1Loops.DecodeValues` | transaction_v1.go:301-326 | one length check for all values, then reads in bit order, is parsing them one by one |
| `TransactionV1Loops.DecodePayloads` | transaction_v1.go:328-352 | headers by index and payloads by cursor are parsed together |
| `JsonScanner.Scanner.Fill` | rpc/stream.go:195-217 | compaction and growth keep every byte from the mark on and the position in the input; an error comes exactly at the end of the input; with room for the input a refill ends where its piece ends |
| `JsonScanner.Scanner.PeekNonSpace` | rpc/stream.go:223-236 | whatever the reads, the scanner ends at the next non-space byte of the input; with room for the input, at a buffer position the pieces decide |
| `JsonScanner.Scanner.ScanFrom` | rpc/stream.go:333-396 | from its first byte on, a value that ends before the end of the input is returned exactly as a scan of the whole input finds it; a primitive that runs to the end is returned whole if and only if the reader was not exhausted or the value stood at the front of the buffer, and otherwise loses as many bytes as stood in front of it |
| `JsonScanner.Scanner.ScanValue` | rpc/stream.go:329-397 | the same with leading white space, for any read sizes; with room for the input the outcome at its end follows from the state before the call and the pieces |
| `JsonScanner.ScanFirst` | rpc/stream.go:329-397 | the first value of an input, in whatever pieces: the bytes lost at the end of the input are those before it in its piece, if it arrives in one |
| `JsonScanner.WholeExact` | rpc/stream.go:385-392 | a primitive that runs to the end of the input is returned whole if and only if it begins the input or a piece ends at its first byte or inside it |
| `JsonScanner.SpaceTwelve` | rpc/stream.go:385-392 | a space and `12`: `2` in one piece, `12` when cut behind the space |
| `JsonScanner.Scanner.StreamAccounts` | rpc/stream.go:114-178 | with any decoder of JSON arrays and any read sizes the stream ends as `Ends` says: a closed array with no element missing is delivered once each and in order, up to the first account the callback refuses, and the scanner ends behind it; otherwise what was handed over by then is delivered in order, and there is an error |
| `JsonScanner.StreamFirst` | rpc/stream.go:114-178 | streamed from the start of an input there is no error exactly when the array is closed, decodes, is accepted, and has no element missing, or only the last, alone in its batch |
| `JsonScanner.ObjectCommaStreamed` | rpc/stream.go:127-178 | an empty object and a trailing comma: refused in one piece, accepted when cut behind the object |
| `JsonBatches.PiecesDoNotMatter` | rpc/stream.go:109-178 | with no element missing, how a closed array ends does not depend on where the buffer ran dry |
| `JsonBatches.PiecesMatter` | rpc/stream.go:109-178 | for arrays of objects, some pieces end well and others do not if and only if the array is closed, only its last element is missing, the others decode and are accepted, and the last of them does not fill a batch by itself |
| `JsonBatches.TakeFlushed` | rpc/stream.go:147-164 | a flush goes well and leaves nothing waiting, or the stream ends as it should for the whole array |
| `JsonBatches.LastFlush` | rpc/stream.go:171-172 | the flush behind the bracket ends the stream as it should for the whole array |
| `JsonBatches.BatchScans` | rpc/stream.go:151-156 | a batch, put together from scanned elements, scans as just those elements |
| `JsonBatches.DecoderExists` | rpc/stream.go:127-144 | whatever the decoding of one element, some decoder of arrays does what the scanner relies on |
| `JsonBatches.DecodeJoin` | rpc/stream.go:127-144 | decoding two lists of elements together is decoding each |
| `JsonScan.ScannedIsElement` | rpc/stream.go:329-397 | the scanned bytes alone decide where a value ends, so it is scanned alike wherever it stands |
| `WsProtocol.EveryRunSafe` | ws/client.go:150-324 | in every run no channel is closed twice, sent to after its close or blocked on by the reader; a request hears at most one of an answer and a close; an entry is registered under at most one id; every notification is accounted for |
| `WsProtocol.FailedForever` | ws/client.go:150-166 | after a failure both maps stay empty in every continuation |
| `WsProtocol.FailureReachesEveryone` | ws/client.go:150-166 | a failure closes exactly the registered entries and waiting requests, once each, and no such request ever hears an answer |
| `WsProtocol.NoNotificationMissed` | ws/client.go:242-269 | from the acknowledgement frame until the entry is detached, received then queued is in order exactly the frames for its id that found room in its queue as they were routed, and the drop counter is exactly the number of the others |
| `WsProtocol.NothingDropped` | ws/client.go:242-255 | an owner that is never a full queue behind gets every frame for its id, in order, and none is dropped |
| `WsProtocol.ClosedIsFinal` | ws/client.go:357-373 | nothing more is routed to a closed entry, and its owner drains what was queued, in order |
| `WsProtocol.StaleReleaseHarmless` | ws/client.go:394-403 | a handle whose id was released or has passed to a newer entry can be released at any later time without changing anything |
| `WsProtocol.EndReachesReceiver` | ws/client.go:150-166 | after a failure the receiver of an entry that was registered is woken if and only if the server never gave its id away while the entry held it |
| `WsProtocol.DisplacedReceiverIsNotWoken` | ws/client.go:257-264 | two subscriptions acknowledged under one id: the first is never closed |
| `WsProtocol.StepKeeps` | ws/client.go:150-403 | every atomic step keeps the invariant |
| `WsClient.Client.Fail` | ws/client.go:150-166 | closing map entries in any order is the protocol's failure step |
| `WsClient.Client.Request` | ws/client.go:275-295 | registering a request is the protocol's step, and a failed client refuses |
| `WsClient.Client.Withdraw` | ws/client.go:300-320 | giving up a request is the protocol's step |
| `WsClient.Client.RouteAnswer` | ws/client.go:257-266 | routing an answer under the mutex is the protocol's step |
| `WsClient.Client.Deliver` | ws/client.go:267-269 | handing the answer over is the protocol's step, and finds the channel open and empty |
| `WsClient.Client.RouteNotification` | ws/client.go:242-255 | routing a notification is the protocol's step: enqueued, or dropped and counted when the buffer is full |
| `WsClient.Client.Recv` | ws/client.go:357-373 | the oldest notification first; the close is seen only when the queue is empty |
| `WsClient.Client.Release` | ws/client.go:394-403 | releasing is the protocol's step, identity check included |
| `AccountCache.NewestWins` | rpc/cache.go:410-431 | after any writes the entry holds the data and slot of the last write with the highest slot, every flag ever set and the time of the last write |
| `AccountCache.NeverBack` | rpc/cache.go:410-431 | over any writes the slot never goes back and no flag is ever lost |
| `AccountCache.OrderDoesNotMatter` | rpc/cache.go:410-431 | writes with distinct slots give the same data, slot and flags in any order |
| `AccountCache.MergedAt` | rpc/cache.go:370-381 | the shards answer for every key what one map would |
| `AccountCache.MissingExact` | rpc/cache.go:213-227 | the keys fetched are exactly the requested keys the cache cannot serve, without repeats |
| `CacheClient.Cache.constructor` | rpc/cache.go:330-338 | the shard count is rounded up to a power of two and the cache is empty |
| `CacheClient.Cache.Set` | rpc/cache.go:410-431 | writing through the key's shard is writing to the one map |
| `CacheClient.Cache.Delete` | rpc/cache.go:433-438 | deleting through the key's shard is deleting from the one map |
| `CacheClient.Cache.LookupAt` | rpc/cache.go:398-405 | serves exactly fresh entries and moves only the read clock |
| `CacheClient.Cache.Len` | rpc/cache.go:440-449 | the shard sizes add up to the size of the one map |
| `CacheClient.Cache.Tidy` | rpc/cache.go:454-469 | removes exactly the keys not read since the cutoff |
| `CacheClient.Cache.ScanBatch` | rpc/cache.go:207-229 | hits and recorded positions together number the requested keys, and each unservable position is recorded under its key |
| `CacheClient.Cache.GetMultiple` | rpc/cache.go:207-253 | result i is the cached account if servable at the common clock, otherwise the value fetched for that key, and nothing if the response is too short for it; values are stored under their keys; a failed fetch and a response with too many values are reported; the counters grow by hits and by distinct misses |

## Left out

- Soundness and zero knowledge of the proofs: probabilistic statements; what is proved is the exact condition under which an honestly made proof is accepted.
- The curve, hashes, Merlin, AES-GCM-SIV, ed25519, base58, base64 and zstd: foreign libraries, here a group, an arbitrary challenge function, or nothing.
- Public-key validity and zero-ciphertext proofs: two instances of the linear relations in `SigmaProofs` that would only add easy members.
- Byte layout of the Sigma proofs: fixed offsets; the model keeps their words in order.
- Instruction builders and decoders of the programs, proof locations, record and registry accounts: straight-line encodings.
- Applying a pending balance, rotating the supply key, withdrawing withheld fees beyond their summation: compositions of members proved here.
- Keys handed out while walking an object in the scanner, whose view may be overwritten by a refill, and the outer walk of the response.
- Views into input buffers: decoded instruction data and scanned values are copies here, so aliasing is not captured.
- WsProtocol.EveryRunSafe: does not model frames, control messages, contexts or the choice a request makes between an answer and a simultaneous end of the connection; cancellation is a step.
- CacheClient.Cache.GetMultiple: other writers do not interleave with one call. Chain-head entries, the janitor and the commitment options are not modelled.
- JsonScanner.Scanner.ScanValue: for an input longer than the buffer, what is lost of a primitive at the end of the input is stated from the scanner's state at its first byte (`ScanFrom`), not from the pieces alone.
- JsonBatches.PiecesMatter: not for arrays with primitives among their elements, which no account is; there `Ends` gives the outcome for every choice of flush points.
- JsonScanner.Scanner.StreamAccounts: when the input ends with a primitive, which no account is, only that there is an error.
- JSON forms of messages and transactions, signing, wallets, mnemonics, program-derived addresses, the HTTP client and its result types, the gRPC client, confirmation flows, benchmarks and examples.
