# Zendoo sidechain crypto library: the threshold-signature circuit, its prover, and the JNI boundary

A sidechain certificate is accepted when enough members of a fixed committee signed it. The library
proves this in a circuit: it commits to the committee's keys and the threshold, rebuilds the signed
message from the certificate data, counts the signatures that verify, binds that count into the
certificate hash as its quality, and forces `count - threshold` to be a short sum of bits in the prime
field. This project models that circuit constraint by constraint, the native code that builds its
witness and public inputs, the constants the library derives (the VRF generator table and the
try-and-increment search), and the ownership and exception protocol between Java and Rust.

Main results:

- **The meaning of the circuit, both ways.** For any field elements whatsoever, the synthesized
  constraints hold exactly when the assignment is the layout of the witness read off it and that
  witness satisfies the threshold equation (`CircuitMeaning`). The exact set of provable public
  inputs follows with no assumption on the hash (`LanguageExact`): the bit trick alone also accepts
  thresholds within `2^d` of the modulus, and thresholds that come from a u64 are never that close.
- **Soundness and completeness, end to end.** An accepted proof means exactly `quality` valid
  signatures under the committed keys, and no fewer than the threshold, unless the hash collides
  (`Soundness`). Commitment and message bind every key, the threshold and every datum that they hash
  (`CommitmentBinds`, `MessageBinds`, `CertificatesSeparated`). The library's own prover is accepted
  if and only if enough signatures are valid and the null signature verifies at no gap
  (`ProverAccepted`, `ProveForVerifier`).
- **The synthesizer.** The imperative synthesizer emits one fixed list of variables and constraints
  per key count, in setup and when proving, and fails in exactly two ways (`GenerateConstraints`,
  `SetupMatchesProver`).
- **The boundary.** Over every run of Java operations no native read or drop misses its box, each box
  is dropped exactly once, and closing does not depend on order, repetition or sharing
  (`RunsFromInit`, `CloseAllExact`); a call changes exactly the boxes that it writes and makes
  (`NativeCallEffect`). An exported call never loses the first exception, and the one case in which a
  panic still unwinds into the JVM is exact (`ExportExact`). The prover sees exactly the
  contents of the open objects it is given (`CreateProofSees`, `NativeCreateProof`).
- **The generator table.** A segment tells its chunk strings apart if and only if the generator's order
  exceeds the largest difference of two scalars (`SegmentInjectiveExact`); at the declared window size
  it does not, for any order up to 2^256 (`FullWindowCollides`).

| file | contents |
|---|---|
| NumberTheory.dfy, Bits.dfy | divisibility, Euclid's lemma, bit packing and truncation, the bit width |
| ThresholdEnforcer.dfy | the length restriction over a prime field |
| R1cs.dfy | constraints, their evaluation, the constraint system and its gadgets |
| Circuit.dfy | instances, layout, constraints, the synthesizer |
| CircuitSemantics.dfy, CircuitLanguage.dfy | what the constraints mean; language, soundness |
| CctpCalls.dfy | native digests, native count, prover, completeness |
| GroupHash.dfy, HashToCurve.dfy | the generator table; the search |
| Handles.dfy, JavaObjects.dfy | ownership state machine; the Java objects that refine it |
| Exceptions.dfy | throwing, panicking, unwinding and catching at the boundary |
| NativeCalls.dfy | null checks as exceptions; `createProof` from Java objects to its result |

## How to read the model

- The field is an arbitrary prime `p > 2^129` of a stated bit length. The hash, Schnorr verification
  and the byte accumulator are arbitrary functions, since their code is in other crates.
- Library gadgets appear as what they allocate and enforce: a Boolean is `(1 - b) b = 0`, packing is a
  linear sum tied to a fresh variable, `conditionally_add_constant` adds a term, a hash or a
  signature verdict is one output variable tied to its inputs. Their inner variables are not modelled.
- A hash into the field cannot be injective on pairs of field elements, so assuming that would assume
  everything. Soundness assumes nothing of the hash: an accepted assignment means what it should, or
  its witness and the verifier's data form one of four named collisions.
- The key commitment covers the x-coordinates only, as in the source, so soundness says nothing more
  about the y-coordinates than that the counted signatures verify under the witnessed keys.
- A proof is idealised as the assignment it proves knowledge of; verification is satisfaction with
  the two given public inputs. The verifier's public inputs are computed in another crate; they
  are modelled as demo-circuit/src/naive_threshold_sig/mod.rs:420-453 computes them.
- Gadgets, instances and digests are values or classes as in the source. The synthesizer is cut into
  one method per section of the original function.
- A box has contents: an element, a key, a signature, or a digest with its declared length and its
  inputs so far. What a call writes into a mutable box and puts into new ones is arbitrary in the run
  theorems and exact where a call is modelled by name.
- After an abort, or after a panic has unwound into the JVM, the model says nothing more.

Where documents and code differ, the model follows the code: the comment that an exported call never
unwinds overlooks the print before the abort, which panics when the standard error stream fails; the
comments that spell the message as a hash of two separate fees hash one packed element;
doc/GenericThresholdCircuit.md sizes the bit string by the length of the maximal key count while the
code uses `log_max_pks + 1` bits; and the search is declared to return an optional point but never
returns the empty one.

## Model

| member | source | states |
|---|---|---|
| NumberTheory.Euclid | doc/GenericThresholdCircuit.md:68-80 | a prime dividing a product divides a factor; the step that makes field bits integer bits |
| NumberTheory.BooleanConstraint | demo-circuit/src/naive_threshold_sig/mod.rs:289-291 | over a prime field the Boolean constraint admits 0 and 1 and nothing else |
| Bits.PackToBits | demo-circuit/src/naive_threshold_sig/mod.rs:90-99 | packing the last `k` big-endian bits gives the value modulo `2^k` |
| Bits.ToBitsPack | demo-circuit/src/naive_threshold_sig/mod.rs:295-299 | the bits of a packed string are that string, so packing is injective per length |
| Bits.ToBitsSuffix | demo-circuit/src/naive_threshold_sig/mod.rs:93-95 | skipping leading bits of the full representation leaves the low bits |
| Bits.PackAppend | demo-circuit/src/naive_threshold_sig/mod.rs:196-205 | packing a concatenation shifts the first part by the length of the second |
| Bits.ReverseLittleEndian | demo-circuit/src/naive_threshold_sig/mod.rs:196-205 | reversing the little-endian bits of a word gives its big-endian bits |
| Bits.LogMaxPksIsCeilLog2 | demo-circuit/src/naive_threshold_sig/mod.rs:91 | trailing zeros of the next power of two are the ceiling logarithm, for every machine word, also 0, 1 and the wrapped case |
| Bits.WidthSufficient | demo-circuit/src/naive_threshold_sig/mod.rs:123-126 | every difference up to the key count fits `log_max_pks + 1` bits; one bit less would do exactly when the count is no power of two |
| ThresholdEnforcer.AcceptedAreBits | demo-circuit/src/naive_threshold_sig/mod.rs:286-304 | any field elements that pass the enforcer are bits and pack without reduction |
| ThresholdEnforcer.AcceptanceSet | demo-circuit/src/naive_threshold_sig/mod.rs:286-304 | exact acceptance set over the whole field: `t <= v` or `t > v + p - 2^d` |
| ThresholdEnforcer.EnforcerExact | doc/GenericThresholdCircuit.md:52-80 | for two `d`-bit integers with `2^(d+1) < p`, satisfying bits exist if and only if `v >= t` |
| ThresholdEnforcer.AcceptedUnique | doc/GenericThresholdCircuit.md:52-80 | the satisfying bits are unique: the digits of the field difference |
| ThresholdEnforcer.ThresholdFromU64 | api/src/cctp_calls.rs:196 | with the circuit's width and a u64 threshold, bits exist exactly when `v >= t` |
| R1cs.EvalPackTerms | demo-circuit/src/naive_threshold_sig/mod.rs:207-210 | the doubling linear combination evaluates to the big-endian packing |
| R1cs.BooleanMeaning | demo-circuit/src/naive_threshold_sig/mod.rs:289-291 | the allocated Boolean's constraint holds exactly for 0 and 1 |
| R1cs.EqualVarsMeaning | demo-circuit/src/naive_threshold_sig/mod.rs:269-272 | the equality constraint on two variables is equality of their values |
| R1cs.PackMeaning | demo-circuit/src/naive_threshold_sig/mod.rs:296-299 | the packing constraint fixes the output to the packed value modulo `p`, for any inputs |
| R1cs.WordBits | demo-circuit/src/naive_threshold_sig/mod.rs:190-193 | shifting a word right bit by bit lists its little-endian bits |
| R1cs.ConstraintSystem.AllocBooleans | demo-circuit/src/naive_threshold_sig/mod.rs:288-293 | allocates the Booleans in order with their constraints; fails exactly when proving with one missing |
| R1cs.ConstraintSystem.AllocUInt64 | demo-circuit/src/naive_threshold_sig/mod.rs:190-193 | 64 Booleans, least significant first, holding the word |
| Circuit.New | demo-circuit/src/naive_threshold_sig/mod.rs:76-114 | keeps every argument, cuts the field element `b` to its `log_max_pks + 1` low bits, and leaves only signatures that may be missing |
| Circuit.AllocKeys | demo-circuit/src/naive_threshold_sig/mod.rs:130-142 | allocates each key's coordinates in order; fails exactly when proving with a key missing |
| Circuit.EnforceCommitment | demo-circuit/src/naive_threshold_sig/mod.rs:144-162 | emits the two hashes over the x-coordinates and the threshold |
| Circuit.FeesPackExactly | demo-circuit/src/naive_threshold_sig/mod.rs:195-210 | reversed and concatenated little-endian fee bits pack to `btr_fee * 2^64 + ft_min_amount` |
| Circuit.PackedFeesInField | demo-circuit/src/naive_threshold_sig/mod.rs:195-210 | the packed fees are below the modulus, so the packing constraint loses nothing |
| Circuit.PackedFeesInjective | demo-circuit/src/naive_threshold_sig/mod.rs:195-210 | the packed element determines both fees |
| Circuit.PackFees | demo-circuit/src/naive_threshold_sig/mod.rs:189-210 | emits 128 Boolean constraints and the packing; its value is the packed fees |
| Circuit.EnforceMessage | demo-circuit/src/naive_threshold_sig/mod.rs:164-215 | allocates the certificate data and hashes it with the fees into the message |
| Circuit.AllocSigs | demo-circuit/src/naive_threshold_sig/mod.rs:217-225 | allocates each signature in order; fails exactly when proving with one missing |
| Circuit.EnforceVerdicts | demo-circuit/src/naive_threshold_sig/mod.rs:227-238 | one verdict per position on that position's key and signature and the common message |
| Circuit.CountVerdicts | demo-circuit/src/naive_threshold_sig/mod.rs:240-248 | the accumulated value is the integer number of valid signatures, without wrap-around |
| Circuit.EnforceCert | demo-circuit/src/naive_threshold_sig/mod.rs:250-284 | hashes the data with the count and ties both digests to public inputs |
| Circuit.EnforceThreshold | demo-circuit/src/naive_threshold_sig/mod.rs:286-304 | allocates and packs the `b`'s and equates them with count minus threshold |
| Circuit.GenerateConstraints | demo-circuit/src/naive_threshold_sig/mod.rs:118-307 | panics exactly on a failed length assertion, misses an assignment exactly when proving with an incomplete witness; otherwise variables and constraints depend on the key count only and the assignment on the witness only |
| Circuit.AssignmentLays | demo-circuit/src/naive_threshold_sig/mod.rs:130-304 | the assignment of a witness holds every section's values at their places |
| Circuit.LaysIsAssignment | demo-circuit/src/naive_threshold_sig/mod.rs:130-304 | the sections cover every variable |
| Circuit.PublicInputsExact | demo-circuit/src/naive_threshold_sig/mod.rs:262-284 | exactly two variables are public: the key commitment, then the certificate hash |
| CircuitSemantics.WordBitsAt | demo-circuit/src/naive_threshold_sig/mod.rs:190-193 | any 64 Booleans are the bits of one u64 |
| CircuitSemantics.CommitmentMeaning | demo-circuit/src/naive_threshold_sig/mod.rs:144-162 | for any field elements, the key constraints hold exactly when one digest hashes the witnessed x-coordinates in order and the other hashes that digest with the threshold |
| CircuitSemantics.FeePackingMeaning | demo-circuit/src/naive_threshold_sig/mod.rs:195-210 | for any bits, the packing constraint is integer equality with the two u64 they spell |
| CircuitSemantics.MessageMeaning | demo-circuit/src/naive_threshold_sig/mod.rs:189-215 | the fee and message constraints hold exactly when the fee variables are bits and the message is the hash of identifier, epoch, transfers root, tree root and `2^64 * btr_fee + ft_min_amount` |
| CircuitSemantics.VerdictsMeaning | demo-circuit/src/naive_threshold_sig/mod.rs:227-238 | the verdict constraints hold exactly when each verdict is the verification result |
| CircuitSemantics.CountEvaluates | demo-circuit/src/naive_threshold_sig/mod.rs:240-248 | the linear count evaluates to the integer number of verifying signatures |
| CircuitSemantics.CertDataMeaning | demo-circuit/src/naive_threshold_sig/mod.rs:250-260 | the certificate constraints hold exactly when the digests hash the data with that count |
| CircuitSemantics.InputsMeaning | demo-circuit/src/naive_threshold_sig/mod.rs:262-284 | the input constraints hold exactly when each public input equals the digest in the circuit |
| CircuitSemantics.ThresholdMeaning | demo-circuit/src/naive_threshold_sig/mod.rs:286-304 | the last constraints hold exactly when the `b`'s are bits, packed, and equal count minus threshold in the field |
| CircuitSemantics.CircuitMeaning | demo-circuit/src/naive_threshold_sig/mod.rs:118-307 | for every assignment of field elements: the constraints hold if and only if it is the layout of the witness read off it and that witness meets the threshold equation |
| CircuitLanguage.DecodeRecovers | demo-circuit/src/naive_threshold_sig/mod.rs:130-304 | reading the witness back from its assignment returns it |
| CircuitLanguage.OwnAssignment | demo-circuit/src/naive_threshold_sig/mod.rs:130-304 | the synthesized system is satisfied by its own assignment exactly when packed `b` equals count minus threshold modulo `p` |
| CircuitLanguage.ReachExact | demo-circuit/src/naive_threshold_sig/mod.rs:301-304 | some bits of the circuit's width meet the threshold equation exactly within reach |
| CircuitLanguage.AcceptedMeaning | demo-circuit/src/naive_threshold_sig/mod.rs:118-307 | an accepted assignment's witness opens both public inputs and meets the threshold equation |
| CircuitLanguage.AcceptedIsCanonical | demo-circuit/src/naive_threshold_sig/mod.rs:118-307 | an accepted assignment is the one its own witness determines; no variable is free |
| CircuitLanguage.AssignmentAccepted | demo-circuit/src/naive_threshold_sig/mod.rs:118-307 | the assignment of a witness is accepted exactly when it opens the inputs and meets the equation |
| CircuitLanguage.LanguageExact | demo-circuit/src/naive_threshold_sig/mod.rs:118-307 | two public inputs are provable if and only if some witness opens them with count and threshold within reach; no assumption on the hash |
| CircuitLanguage.KeysBound | api/src/cctp_calls.rs:81-100 | equal key commitments mean equal keys, in order, and equal thresholds, or a collision of the inner or outer hash |
| CircuitLanguage.CommitmentOpens | api/src/cctp_calls.rs:89-99 | the commitment of keys is the hash of the hash of their x-coordinates, in order, with the threshold |
| CircuitLanguage.CommitmentIgnoresY | demo-circuit/src/naive_threshold_sig/mod.rs:149 | keys with the same x-coordinates have one commitment whatever their y-coordinates |
| CircuitLanguage.CommitmentBinds | api/src/cctp_calls.rs:89-99 | two key lists of one length with one commitment agree in every x-coordinate and the threshold, or collide |
| CircuitLanguage.MessageBinds | api/src/cctp_calls.rs:130-137 | one message means the same identifier, epoch, roots and fees, or a collision |
| CircuitLanguage.CountIsCardinality | demo-circuit/src/naive_threshold_sig/mod.rs:240-248 | the count is the number of positions whose signature verifies under the key beside it |
| CircuitLanguage.CertBound | demo-circuit/src/naive_threshold_sig/mod.rs:436-453 | equal certificate hashes mean equal data, quality included, or a collision of the inner or outer hash |
| CircuitLanguage.EnoughFromU64 | api/src/cctp_calls.rs:196 | for a u64 threshold, within reach means enough signatures |
| CircuitLanguage.Soundness | demo-circuit/src/naive_threshold_sig/mod.rs:118-307 | whoever made it, an accepted assignment has the committed keys in order, exactly `q` signatures that verify on the message of the same data, and `q >= t`, or exhibits a hash collision |
| CctpCalls.HashAll | api/src/cctp_calls.rs:130-137 | a digest declared for a number of elements and updated with that many, one by one, always finalizes, to the hash of the list in order |
| CctpCalls.ComputePksThresholdHash | api/src/cctp_calls.rs:81-100 | the native constant is the hash of the hash of the x-coordinates with the threshold, which is the commitment of the circuit |
| CctpCalls.ComputeMsgToSign | api/src/cctp_calls.rs:102-140 | every case: failed Merkle root, failed accumulator, panic on other than one element, or the hash of the five data in order |
| CctpCalls.NativeMessageBinds | api/src/cctp_calls.rs:102-140 | two native calls with one message were given the same data and accumulated fees, or their data collide |
| CctpCalls.CertificatesSeparated | api/src/cctp_calls.rs:102-140 | two certificates with one message agree in every field, both fees included, or collide, so a signature serves one certificate |
| CctpCalls.CountAndFill | api/src/cctp_calls.rs:172-184 | counts the present valid signatures, fills every gap with the null signature and nothing else; fails exactly when a check errors, with the error of the least failing position |
| CctpCalls.NativeCountIsCardinality | api/src/cctp_calls.rs:172-184 | the native count is the number of positions with a present signature that verifies |
| CctpCalls.NativeVersusCircuit | api/src/cctp_calls.rs:172-184 | the native count never exceeds the circuit's; they agree exactly when the null signature fails at every gap |
| CctpCalls.NewFilled | demo-circuit/src/naive_threshold_sig/mod.rs:76-114 | on filled signatures the constructor gives a consistent, complete instance with every argument in its place and the truncated difference |
| CctpCalls.WrappedDifference | api/src/cctp_calls.rs:186-187 | the u64 that differs from `v - t` by a multiple of 2^64 |
| CctpCalls.CreateProof | api/src/cctp_calls.rs:142-239 | every outcome of the prover: length panic, failed message, the error of the first failed check, overflow panic, or the assignment of its witness with the native count |
| CctpCalls.LowBitsMeet | api/src/cctp_calls.rs:186-187 | the low bits of the possibly wrapped u64 difference pack to `c - t` exactly when there are enough signatures and `c` is their number |
| CctpCalls.ProverEquation | api/src/cctp_calls.rs:186-187 | the field equation holds for the prover's own bits exactly when there are enough signatures and the counts agree |
| CctpCalls.FieldDifferenceEquation | demo-circuit/src/naive_threshold_sig/mod.rs:415-418 | the same for a witness built from the field difference |
| CctpCalls.ProverThreshold | api/src/cctp_calls.rs:172-210 | the prover's witness meets the threshold equation exactly when enough signatures are valid and no gap accepts the null signature |
| CctpCalls.ProverAccepted | api/src/cctp_calls.rs:158-238 | the prover's own proof verifies with the returned quality if and only if enough signatures are valid and no gap accepts the null signature |
| CctpCalls.ProveForVerifier | api/src/cctp_calls.rs:487-527 | prover and verifier together, with and without overflow checks, in terms of hashing and verification alone: message, count, failed checks and null signature |
| CctpCalls.SetupMatchesProver | demo-circuit/src/naive_threshold_sig/mod.rs:311-330 | setup and prover synthesise identical variables and constraints, and setup asks for no value |
| GroupHash.DoubleFourTimes | demo-circuit/src/constants/mod.rs:147-149 | four in-place doublings multiply by 16 |
| GroupHash.Segment | demo-circuit/src/constants/mod.rs:143-150 | a row of `WINDOW_SIZE` entries, entry `j` being `16^j` times the generator |
| GroupHash.ComputeGroupHashTable | demo-circuit/src/constants/mod.rs:138-154 | two rows of 128 entries, one row per generator in order; an index panic exactly when generators are missing |
| GroupHash.SegmentIsScalar | demo-circuit/src/constants/mod.rs:138-154 | summing signed digits times row entries multiplies the generator by `sum digit_j * 16^j`, as in section 5.4.1.7 of the Zcash Protocol Specification |
| GroupHash.ChunkDigitExact | demo-circuit/src/constants/mod.rs:138-154 | the digits are exactly the values of `(1 - 2 s2)(1 + s0 + 2 s1)` over bits, as in section 5.4.1.7 of that specification |
| GroupHash.ScalarInjective | demo-circuit/src/constants/mod.rs:143-150 | over the integers, digit strings of one length with the digits of section 5.4.1.7 have distinct scalars `sum digit_j * 16^j` |
| GroupHash.DifferenceStrings | demo-circuit/src/constants/mod.rs:143-150 | every integer from `-8 (16^c - 1) / 15` to `7 (16^c - 1) / 15` is the difference of the scalars of two chunk strings |
| GroupHash.SegmentInjectiveExact | demo-circuit/src/constants/mod.rs:138-154 | strings of `c` chunks have distinct sums over a row if and only if the generator's order `r` satisfies `8 (16^c - 1) < 15 r` |
| GroupHash.FullWindowCollides | demo-circuit/src/constants/mod.rs:58-63 | at the declared `WINDOW_SIZE` and any order up to 2^256 two different chunk strings have the same sum; the pair is returned |
| HashToCurve.MaskBits | demo-circuit/src/constants/mod.rs:207-211 | in place, every bit beyond the field's is false afterwards and every other bit is as before |
| HashToCurve.DecodeChunks | demo-circuit/src/constants/mod.rs:207-218 | decodes the leading chunk bytes: whole inside the field's bits, zero outside, and without their low bits where the field ends |
| HashToCurve.CandidateBytes | demo-circuit/src/constants/mod.rs:178-218 | a counter is tried on just enough blocks, the first the hash of the tag with the counter byte, each later one the hash of the one before, masked as above |
| HashToCurve.BytesRoundTrip | demo-circuit/src/constants/mod.rs:208-214 | bytes survive the bit vector |
| HashToCurve.HashToCurve | demo-circuit/src/constants/mod.rs:164-233 | returns the point of the least counter below 255 that yields one, and otherwise panics on the counter overflow; the candidate at 255 is never tried |
| Handles.AllocKeeps | api/src/lib.rs:68-78 | boxing a result into a new object keeps ownership |
| Handles.FreeKeeps | api/src/lib.rs:259-270 | freeing drops exactly the object's own box and keeps ownership |
| Handles.NewNullKeeps | jni/src/main/java/com/horizen/schnorrnative/SchnorrSignature.java:24-26 | an object built around null owns nothing, is absent for a nullable read, throws for any other, and closes without effect |
| Handles.ReadsExact | api/src/lib.rs:33-57 | the three kinds of pointer read: a call is stopped exactly by a closed object that it does not read as nullable; otherwise every read gives the content of the object's own box, and nothing exactly at closed objects |
| Handles.AllPassExact | api/src/lib.rs:33-57 | the null checks fail exactly when a closed object is read other than as nullable |
| Handles.NativeCallExact | api/src/lib.rs:33-78 | outcome of a native call: Java guard first, then the native null checks; a rejected call changes nothing |
| Handles.NativeCallEffect | api/src/lib.rs:44-78 | after an accepted call every written object holds the last value written to it, every other box keeps its content, the results are new objects in order, and nothing else changes |
| Handles.WriteKeeps | api/src/lib.rs:44-53 | writing through a mutable read changes one content and keeps ownership |
| Handles.StepKeeps | api/src/lib.rs:33-78 | every operation keeps ownership |
| Handles.EveryRunSafe | api/src/lib.rs:33-78 | over every run no read, write or drop misses a live box of its type, open objects own distinct boxes, none leaks, none is dropped twice |
| Handles.RunsFromInit | api/src/lib.rs:33-78 | after every run from the empty heap open objects have distinct live boxes of their type, every live box has an owner, none was dropped twice; with all objects closed nothing is live and exactly the boxes made were dropped, each once |
| Handles.AllClosedAllDropped | jni/src/main/java/com/horizen/librustsidechains/FieldElement.java:73-78 | once all objects are closed, every box ever allocated was dropped exactly once |
| Handles.CloseAllExact | jni/src/main/java/com/horizen/schnorrnative/SchnorrKeyPair.java:44-48 | closing a list of objects zeroes exactly those and drops exactly their boxes |
| Handles.CloseOrderIrrelevant | jni/src/main/java/com/horizen/schnorrnative/SchnorrKeyPair.java:14-22 | order, repetition and sharing of closed objects do not matter |
| JavaObjects.Jvm.ReturnJObject | api/src/lib.rs:68-78 | boxes a value and stores its address in a new object |
| JavaObjects.Jvm.ReadRawPointer | api/src/lib.rs:33-42 | throws on null, otherwise gives the content of the box |
| JavaObjects.Jvm.ReadNullableRawPointer | api/src/lib.rs:55-57 | an absent value on null, otherwise the content of the box |
| JavaObjects.Jvm.Free | jni/src/main/java/com/horizen/schnorrnative/SchnorrSignature.java:60-70 | frees once and zeroes the field, also for an object built around null |
| JavaObjects.Jvm.CloseKeyPair | jni/src/main/java/com/horizen/schnorrnative/SchnorrKeyPair.java:44-48 | closes the public key, then the secret key |
| JavaObjects.Jvm.Equals | jni/src/main/java/com/horizen/librustsidechains/FieldElement.java:80-94 | an object equals itself without touching the heap; two open objects are equal exactly when they box the same element; a closed one throws |
| JavaObjects.Jvm.Update | jni/src/main/java/com/horizen/poseidonnative/PoseidonHash.java:60-64 | guard on the digest, null check on the input, then the boxed element is appended to the digest's inputs; a rejected update changes nothing |
| JavaObjects.Jvm.UpdateAll | jni/src/main/java/com/horizen/poseidonnative/PoseidonHash.java:122-123 | the updates return exactly when every input is open; the digest holds the inputs before the first closed one, in order |
| JavaObjects.Jvm.FinalizeHash | jni/src/main/java/com/horizen/poseidonnative/PoseidonHash.java:83-87 | a digest gives a hash exactly after its declared number of updates, and null otherwise |
| JavaObjects.Jvm.ComputePoseidonHash | jni/src/main/java/com/horizen/poseidonnative/PoseidonHash.java:119-128 | returns the new field element, never null, exactly when every input is open; where the call leaves the heap, whether it returns or throws |
| JavaObjects.PoseidonHashPopulation | jni/src/main/java/com/horizen/poseidonnative/PoseidonHash.java:119-137 | the digest population is unchanged exactly when every input is open; then one new box holds the hash of the inputs in order, and otherwise the part-filled digest stays live |
| Exceptions.RunExact | api/src/exception.rs:17-55 | what stays pending after a native body is the first exception; it panics exactly when it leaves by a panic, by `throw_and_exit!` or by a `throw!` that fails |
| Exceptions.ExportExact | api/src/exception.rs:66-185 | an exported call unwinds into the JVM exactly when body and handler panic and the standard error stream cannot be written, and aborts exactly when they panic and it can; otherwise it returns, after a panic null, 0 or nothing by its form, with the first exception pending or else a `RuntimeException` with the panic's message |
| Exceptions.PendingStays | api/src/exception.rs:18-20 | no call drops or replaces an exception that is already pending |
| Exceptions.FirstRaisedStays | api/src/exception.rs:17-55 | the first exception that a body raises is the one pending afterwards, whatever follows |
| Exceptions.LeavesQuietly | api/src/exception.rs:32-86 | a body that returns gives its value, one that throws and returns gives both, one that panics gives a `RuntimeException` with its message |
| Exceptions.JniEnv.ThrowInner | api/src/exception.rs:17-28 | does nothing when an exception is pending and panics exactly when a needed JNI call fails |
| Exceptions.JniEnv.RunBody | api/src/exception.rs:32-55 | runs a body to where it leaves |
| Exceptions.JniEnv.FfiExport | api/src/exception.rs:66-185 | two nested catches, then outside both the line on the standard error stream and the abort; the four forms differ in the default |
| NativeCalls.NativeCallThrows | api/src/lib.rs:33-42 | with its Java guards passed, a native call returns with nothing pending exactly when its reads pass; otherwise heap and objects are unchanged, a `NullPointerException` is pending if the throw succeeds, and null, 0 or nothing is returned exactly when the handler does not panic too |
| NativeCalls.CreateProofSees | api/src/lib.rs:2102-2151 | whatever the signatures, `createProof` reads its objects exactly when keys and field elements are open; a signature is missing for the prover exactly when its object was closed or built around null |
| NativeCalls.OpenSurvives | jni/src/main/java/com/horizen/schnorrnative/SchnorrSignature.java:60-70 | closing drops the boxes of exactly the closed objects and leaves every other open object its box |
| NativeCalls.ClosedIsMissing | api/src/lib.rs:2112-2118 | closing objects before a proof takes away exactly the signatures in them |
| NativeCalls.NativeCreateProof | api/src/lib.rs:2022-2195 | from Java objects to the result in every case: length panic, null pointer exactly on a closed key or field element, null result for an error that is no panic, overflow panic, or the proof and count of the contents of the boxes |

## Left out

- The inside of the Poseidon, Schnorr and curve gadgets, the Marlin proof system and curve arithmetic: their code is in other crates.
- Merkle trees and paths, the commitment tree, bit-vector roots and serialization: this repository only forwards to other crates.
- Reading and writing keys and proofs, the proving-system check of `verify_naive_threshold_sig_proof` and the unimplemented Darlin branch: I/O or one branch.
- The byte accumulator: that it returns the element the circuit packs is an explicit hypothesis (`FeesAgree`) of completeness; soundness does not use it.
- Public keys at infinity, which have no affine coordinates to allocate.
- The namespaces of a constraint system and synthesis into one that is not empty: the proof systems always start from an empty one.
- Overflow panics of `next_power_of_two` above 2^63 keys in builds with overflow checks; the wrapped result is modelled.
- The search without overflow checks, which would not terminate when no counter succeeds; the search exists only in test code, which is compiled with checks.
- NativeCreateProof: the backward transfers enter as their Merkle root, the numbers after their casts to unsigned; reading the key path and building the result object are not modelled.
- Personalized and variable-length digests, and resetting a digest.
- Failures inside `return_jobject` after the box is made, which would leak it: object creation is taken to succeed.
- Java null references passed as arguments, handles forged from arbitrary numbers, garbage collection without `close`, and threads.
- How a panic payload that is no string is described (`any_to_string`).
