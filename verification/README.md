# PassKeyAuth: a verified model

PassKeyAuth has two halves. An on-chain program keeps identities (passkeys and
attestations), issuers that publish Merkle roots of eligible commitments, and burned
nullifiers. An off-chain service builds the issuers' trees, makes membership proofs, and
guards its calls with a rate limiter, a circuit breaker and a retry policy. This project
models both and proves what they promise, for all inputs and over all runs.

| file | models |
|---|---|
| `Basics.dfy`, `Bits.dfy` | digests, keys, results; shifts, masks, powers of two |
| `Merkle.dfy` | the tree, its builder, prover and the two verifiers (off-chain and on-chain) |
| `MerkleBinding.dfy` | what a root commits to; completeness on both sides |
| `MerklePadding.dfy` | the duplicate-last rule as padding of a perfect tree |
| `RateLimiting.dfy`, `CircuitBreaking.dfy`, `Retrying.dfy` | the resilience primitives against their call histories |
| `Precompile.dfy` | the secp256r1 instruction parser and its encoder |
| `Ledger.dfy`, `LedgerInvariants.dfy`, `LedgerHistory.dfy` | the program's instructions, their invariants, and whole runs |
| `LedgerOutcomes.dfy`, `ProgramId.dfy` | each instruction's answers, one by one; the precompile's address |
| `Engine.dfy`, `EngineAnswers.dfy` | the service's two stores under every interleaving of builds and ingests, and its answers |
| `HexCodec.dfy` | the hex text form of keys and digests |

Keccak-256 is a parameter `keccak` of every result, never assumed injective. A soundness
result concludes "this holds, or the collision computed by the named function from the
arguments is a real one". An existential would be worthless here: collisions of a
32-byte hash always exist.

Each imperative piece of the source is a method or a class proved against a specification
function; the laws are lemmas about those functions. So that the functions are known to say
what the source does, each operation also has lemmas that give its answer in plain terms:
in numbers, on bytes, by the steps taken, or outcome by outcome.

A class keeps the ghost history of its calls, and its `Valid()` says that its fields are what
the history makes them. No lemma relies on automatic induction: each one that Dafny would
apply it to is marked `{:induction false}`.

## Where comments and code differ

- The breaker's half-open state does not admit "a single probe": it admits every call until
  a result is reported (`CircuitBreaking.HalfOpenAdmitsEveryProbe`).
- A second claim with a spent nullifier fails in account creation, so `NullifierAlreadyUsed`
  is never returned. The nullifier is a free argument, not derived from the leaf: an accepted
  proof is accepted again exactly under `LedgerHistory.SameProofAgain`.
- The verifiers do not compare the proof's length with the tree's depth. An inner node is
  accepted with a shorter proof (`MerkleBinding.InnerNodeAccepted`), and a node that a leaf
  is the hash of with a longer one (`MerkleBinding.OverlongProofAccepted`); on-chain, any
  length up to 20 passes. `MerkleBinding.BindingAtEveryDepth` is the exact condition for
  every length.
- The verifiers shift a 64-bit word by the level. From 65 siblings on, a build with overflow
  checks panics and one without wraps the shift amount; the program's workspace turns the
  checks on, the service's release build does not. `MerkleSpec.Recomputed` covers both.
- The root does not fix the leaf list. It does not fix the length at one depth
  (`MerklePadding.OddListsShareARoot`), nor the depth (`MerklePadding.ParentsShareARoot`).
  `MerklePadding.EqualRootsAtAnyDepth` says exactly when two lists share a root: the deeper
  one, hashed up to the level where the depths agree, has the same padded list as the other, unless a collision is at hand.
- Overlapping builds of one issuer can leave the stores out of step
  (`Engine.OverlapBreaksSync`); `Engine.InSyncExactly` is the exact condition.
- `prove` on an issuer whose stored leaf list is empty indexes out of bounds for index 0;
  the model returns `Panicked` there (`Engine.ProvePanicsExactly`, `Engine.EmptyBuildPanics`).
- `build_tree` writes back the whole issuer that it read first, so an ingest in between is
  lost (`Engine.ViewSource`, `Engine.IngestDuringBuildIsLost`).
- Delays may shrink from one attempt to the next. The exponent stops at 16, so they do so
  past that attempt even when the cap is never reached (`Retrying.BackoffMayShrink`);
  `Retrying.BackoffGrowsExactly` is the exact condition for every attempt.
- The breaker's clock is wall time, which may go back; then a query can leave a trace that
  shortens the cooldown (`CircuitBreaking.QueriesAreTransparent` says exactly when).
- The breaker's failure counter is a 32-bit word that wraps in the service's release build;
  after the wrap a closed-looking count keeps the older trip (`CircuitBreaking.FailureAfterWrap`).

## Model

| member | source | states |
|---|---|---|
| `OffchainMerkle.FromLeaves` | offchain/crates/core/src/merkle.rs:55-79 | the builder terminates with exactly the levels of the specification (a single zero node for no leaves) and makes `BuildCost` hash calls |
| `OffchainMerkle.NextLevel` | offchain/crates/core/src/merkle.rs:63-75 | one level is hashed pairwise into the next, an odd last node with itself, one call per parent |
| `OffchainMerkle.RootNodeIsTreeRoot` | offchain/crates/core/src/merkle.rs:83-85 | the last node of the last level is the recursively defined root, zero for no leaves |
| `OffchainMerkle.MerkleTree.Proof` | offchain/crates/core/src/merkle.rs:95-119 | `None` exactly for an index past the leaves; otherwise the siblings on the path and `index_bits` equal to the index itself |
| `OffchainMerkle.WalkUp` | offchain/crates/core/src/merkle.rs:99-118 | the level loop collects the path's siblings and rebuilds the index from the direction bits |
| `OffchainMerkle.ComputeRoot` | offchain/crates/core/src/merkle.rs:24-35 | for a proof of any length, the loop over `index_bits >> level` equals the fold that consumes one bit per sibling, the bits repeating past 64; with overflow checks it panics exactly past 64 siblings |
| `OffchainMerkle.Verify` | offchain/crates/core/src/merkle.rs:39-41 | accepts exactly when that fold reaches the given root; panics exactly when `ComputeRoot` does |
| `OnchainMerkle.ComputeRoot` | programs/passkeyauth/src/merkle.rs:21-32 | for a proof of any length, the on-chain loop computes the same fold as the off-chain one in a build with overflow checks |
| `OnchainMerkle.Verify` | programs/passkeyauth/src/merkle.rs:36-38 | accepts exactly when that fold reaches the given root, aborts exactly past 64 siblings |
| `MerkleSpec.SiblingsFoldToRoot` | offchain/crates/core/src/merkle.rs:95-119 | completeness at every node and for every path, clamped at odd ends or not: its siblings climb to the root |
| `MerkleSpec.FoldSplit` | offchain/crates/core/src/merkle.rs:24-35 | a proof can be cut anywhere: the first m siblings, then the rest from the node reached with the bits shifted by m |
| `MerkleSpec.DescendInRange` | offchain/crates/core/src/merkle.rs:102-117 | a position that exists is never clamped: descending along its bits reaches it |
| `MerkleSpec.SiblingAt` | offchain/crates/core/src/merkle.rs:106-112 | the sibling at each height is the left neighbour, the right one, or the node itself at an odd end |
| `MerkleSpec.FoldReadsLowBits` | offchain/crates/core/src/merkle.rs:26-27 | direction bits above the proof's length do not matter |
| `MerkleSpec.LevelsAreIterates` | offchain/crates/core/src/merkle.rs:61-77 | each stored level is the leaf level hashed up that often, all share the root, and the top one holds it alone |
| `MerkleSpec.BuildCostClosedForm` | offchain/crates/core/src/merkle.rs:61-77 | the build makes (n-1) + depth - popcount(n-1) hash calls |
| `Bits.CeilShiftIsCeilDiv` | offchain/crates/core/src/merkle.rs:62-77 | level k has ceil(n / 2^k) nodes |
| `Bits.DepthIsCeilLog2` | offchain/crates/core/src/merkle.rs:62-77 | the depth is at most d exactly when n is at most 2^d |
| `Bits.UnrolledBit` | offchain/crates/core/src/merkle.rs:26-27 | reading bit `level` of the repeated word is reading the word with the shift amount masked to six bits |
| `Bits.SetBitSetsOne` | offchain/crates/core/src/merkle.rs:114-116 | or-ing a shifted one into the index word sets that bit and no other |
| `MerkleBinding.FoldBinds` | offchain/crates/core/src/merkle.rs:24-35 | two proofs of one length, one index and one resulting root are the same proof, or `MergePoint` is a collision |
| `MerkleBinding.StoredNodeVerifies` | offchain/crates/core/src/merkle.rs:95-119 | every stored node is accepted with the path from it to the root |
| `MerkleBinding.BindingAtEveryDepth` | offchain/crates/core/src/merkle.rs:24-41 | for every length, shorter or longer than the tree's depth, acceptance is equivalent to running along the path of a stored node with exactly its siblings (from the claimed node itself, or for an over-long proof from the node its first siblings reach), or a collision is extracted |
| `MerkleBinding.LeafBinding` | offchain/crates/core/src/merkle.rs:39-41 | a full-length accepted proof is about a leaf of the set; with an index in range, the leaf at that index with the siblings of `Proof`; or a collision |
| `MerkleBinding.AcceptedIsStored` | programs/passkeyauth/src/merkle.rs:34-38 | an accepted proof of any length runs along a stored path; from full length on it passes through a leaf of the list, which for exactly full length is the claimed node; or a collision is extracted |
| `MerkleBinding.InnerNodeAccepted` | offchain/crates/core/src/merkle.rs:39-41 | the verifier does not fix the length: each inner node is accepted with its own shorter path |
| `MerkleBinding.OverlongProofAccepted` | programs/passkeyauth/src/merkle.rs:34-38 | below an accepted node that is a hash of two nodes, both are accepted with one more sibling, in particular below the only leaf of a one-leaf tree |
| `MerkleBinding.ProofFitsOnchain` | programs/passkeyauth/src/lib.rs:157 | the on-chain depth guard passes exactly up to 2^20 leaves; up to 2^64 leaves proofs fit 64 levels and a 64-bit index |
| `MerkleBinding.SmallTrees` | offchain/crates/core/src/merkle.rs:55-85 | the root over no leaves is 32 zero bytes; the roots over one, two and three leaves, hash by hash |
| `MerkleBinding.ProofsVerifyOnBothSides` | offchain/crates/core/src/merkle.rs:159-167 | build, prove, verify composed: accepted by both verifiers, in either build mode, for every index in range, no proof otherwise |
| `MerklePadding.DuplicationIsPadding` | offchain/crates/core/src/merkle.rs:45-46 | the root is the perfect binary Merkle root of the leaves padded level by level to 2^depth |
| `MerklePadding.PaddedAt` | offchain/crates/core/src/merkle.rs:66-72 | which leaf stands at each padded position; the padded list starts with the leaves |
| `MerklePadding.PerfectRootBinds` | offchain/crates/core/src/merkle.rs:12-20 | perfect trees with one root have equal leaves, or the topmost disagreement is a collision |
| `MerklePadding.EqualRoots` | offchain/crates/core/src/merkle.rs:55-85 | for two lists of one depth, equal roots are equivalent to equal padded lists, hence to equal lists of one length, or a collision |
| `MerklePadding.EqualRootsAtAnyDepth` | offchain/crates/core/src/merkle.rs:55-85 | for any two lists, equal roots are equivalent to equal padded lists once the deeper one is hashed up to the other's depth, or a collision is extracted |
| `MerklePadding.ParentsShareARoot` | offchain/crates/core/src/merkle.rs:61-77 | every list of two or more leaves shares its root with the shorter list of its parent nodes |
| `MerklePadding.OddListsShareARoot` | offchain/crates/core/src/merkle.rs:68-72 | an odd list and the list repeating its last leaf have one root |
| `RateLimiting.RateLimiter.constructor` | offchain/crates/resilience/src/lib.rs:255-266 | the bucket starts full at the clock's reading |
| `RateLimiting.RateLimiter.TryAcquireN` | offchain/crates/resilience/src/lib.rs:280-292 | the fields follow the call history and the answer is the one the history gives, which `ExactBucketLaw` and `BucketLaw` say in plain numbers |
| `RateLimiting.RateLimiter.TryAcquire` | offchain/crates/resilience/src/lib.rs:272-274 | the same for one token |
| `RateLimiting.LevelIsTightestWindow` | offchain/crates/resilience/src/lib.rs:283-287 | for every clock and rate, the level is the minimum over all windows of capacity plus credited refill minus what was granted since |
| `RateLimiting.GrantedIffEveryWindowHasRoom` | offchain/crates/resilience/src/lib.rs:286-291 | a request is granted exactly when every window, back to the creation, has room for it |
| `RateLimiting.BucketLaw` | offchain/crates/resilience/src/lib.rs:280-292 | the same law for every clock and every rate, over the milliseconds that the clock went forward |
| `RateLimiting.CreditedSteps` | offchain/crates/resilience/src/lib.rs:283 | a step of the clock counts with its milliseconds; one that went back counts as nothing |
| `RateLimiting.ExactBucketLaw` | offchain/crates/resilience/src/lib.rs:244-292 | with a monotone clock and a rate of at least zero, granted exactly when, for every earlier call and this one, 1000 times what granted-since plus n exceeds the capacity by is at most the rate times the milliseconds since |
| `RateLimiting.WindowBound` | offchain/crates/resilience/src/lib.rs:276-292 | in no window of any run does 1000 times what is granted beyond the capacity exceed the rate times the window's milliseconds |
| `RateLimiting.RefillTwice` | offchain/crates/resilience/src/lib.rs:283-285 | refilling in two clamped steps equals refilling once |
| `RateLimiting.RefusedCallsAreTransparent` | offchain/crates/resilience/src/lib.rs:280-292 | deleting any refused calls from a run changes no other answer and no later level |
| `CircuitBreaking.CircuitBreaker.constructor` | offchain/crates/resilience/src/lib.rs:181-192 | a fresh breaker is closed with no history |
| `CircuitBreaking.CircuitBreaker.State` | offchain/crates/resilience/src/lib.rs:195-203 | answers the verdict of the history, for any clock |
| `CircuitBreaking.CircuitBreaker.Acquire` | offchain/crates/resilience/src/lib.rs:209-214 | refuses exactly when the verdict of the history is open |
| `CircuitBreaking.CircuitBreaker.OnSuccess` | offchain/crates/resilience/src/lib.rs:217-221 | the fields follow the history extended by a success |
| `CircuitBreaking.CircuitBreaker.OnFailure` | offchain/crates/resilience/src/lib.rs:224-231 | the fields follow the history extended by a failure at this time |
| `CircuitBreaking.BreakerEqualsItsHistory` | offchain/crates/resilience/src/lib.rs:195-231 | for every threshold, any clock and any number of failures, wrapped counter included: closed without a trip since the last success; half open once the cooldown after the last trip is over now or a query has seen it over; else open; the stored count is the failures in a row modulo 2^32 |
| `CircuitBreaking.VerdictOnTheClock` | offchain/crates/resilience/src/lib.rs:195-203 | on a clock that never goes back, the state is decided by t minus the last trip alone |
| `CircuitBreaking.BreakerInPlainNumbers` | offchain/crates/resilience/src/lib.rs:195-231 | on such a clock and below 2^32 failures in a row: closed below the threshold, open until the cooldown after the last failure has passed, then half open |
| `CircuitBreaking.CooldownInPlainNumbers` | offchain/crates/resilience/src/lib.rs:197-201 | the cooldown is over when its milliseconds have passed since the trip; a reading before the trip ends none but an empty one |
| `CircuitBreaking.CounterWraps` | offchain/crates/resilience/src/lib.rs:224-226 | the counter holds the failures in a row modulo 2^32 |
| `CircuitBreaking.TripWithoutWrap` | offchain/crates/resilience/src/lib.rs:217-231 | up to 2^32 - 1 failures in a row, there is a trip exactly when they reach the threshold, and the last failure is it |
| `CircuitBreaking.FailureAfterWrap` | offchain/crates/resilience/src/lib.rs:224-231 | any further failure restarts the cooldown exactly when the wrapped count reaches the threshold; otherwise the older trip stands |
| `CircuitBreaking.QueriesAreTransparent` | offchain/crates/resilience/src/lib.rs:195-214 | `state` and `acquire` calls change a later answer exactly when the clock went back behind a cooldown that one of them saw elapse; never on a clock that does not go back |
| `CircuitBreaking.HalfOpenAdmitsEveryProbe` | offchain/crates/resilience/src/lib.rs:195-214 | a machine that is half open has the same fields after any number of `state` or `acquire` calls at any clock readings, and admits the next one at any time |
| `Retrying.BackoffBounds` | offchain/crates/resilience/src/lib.rs:110-120 | every delay lies between half the exponential and the exponential, which is the smaller of the cap and base times 2^min(attempt,16): saturation never shows |
| `Retrying.BackoffInPlainNumbers` | offchain/crates/resilience/src/lib.rs:110-120 | for every 32-bit attempt: half of the smaller of the cap and base times 2^min(attempt,16), plus 761 times the attempt modulo 1000 thousandths of it; any durations are valid |
| `Retrying.BackoffGrowsWhileUncapped` | offchain/crates/resilience/src/lib.rs:105-120 | delays do not decrease while the exponential doubles below the cap |
| `Retrying.ExponentialNext` | offchain/crates/resilience/src/lib.rs:110-115 | from one attempt to the next the exponential doubles (below attempt 16 and half the cap), stays (from attempt 16 on or at the cap), or steps into the cap |
| `Retrying.BackoffGrowsExactly` | offchain/crates/resilience/src/lib.rs:105-120 | for every attempt, the next delay is no shorter exactly when the exponential doubled, or the jitter seed is below 239, or the step into the cap makes up for 239 thousandths |
| `Retrying.StepIntoCapGrowsExactly` | offchain/crates/resilience/src/lib.rs:105-120 | the exact condition on seed, base and cap for the step into the cap |
| `Retrying.FlatBackoffGrowsExactly` | offchain/crates/resilience/src/lib.rs:116-120 | where the exponential stays, the next delay is no shorter exactly when the seed is below 239 |
| `Retrying.BackoffMayShrink` | offchain/crates/resilience/src/lib.rs:116-119 | two policies with a shrinking delay: one at its cap, one that never reaches it, past attempt 16 |
| `Retrying.SleptBounds` | offchain/crates/resilience/src/lib.rs:132-144 | k sleeps last at most k times the cap and at most base times (2^k - 1) |
| `Retrying.Retry` | offchain/crates/resilience/src/lib.rs:127-145 | stops at the first success or after max(1, max_attempts) calls, returns the last result, and has slept exactly the delays in between, within both bounds |
| `Precompile.ExtractExactly` | programs/passkeyauth/src/passkey.rs:43-69 | a credential comes out exactly when the data starts with an encoded self-referential header whose key and message slices fit and are that credential; the late guard never fires |
| `Precompile.ExtractOnBytes` | programs/passkeyauth/src/passkey.rs:43-69 | the same on the bytes alone: a signature count that is not zero, bytes 4, 5, 8, 9, 14 and 15 all 255, and the 33 bytes and the message where bytes 6, 7 and 10 to 13 say |
| `Precompile.ExtractIgnoresSuffix` | programs/passkeyauth/src/passkey.rs:66-68 | appending bytes never changes a successful result |
| `Precompile.Blob` | programs/passkeyauth/src/passkey.rs:76-102 | reserving, appending and filling in place writes the encoded header followed by signature, key and message |
| `Precompile.BlobOnBytes` | programs/passkeyauth/src/passkey.rs:76-102 | one signature at byte 16, filled with sevens, then key and message |
| `Precompile.BlobRoundTrip` | programs/passkeyauth/src/passkey.rs:105-112 | reading a blob gives its key and its message cut to 16 bits of length, the message itself exactly up to 65535 bytes |
| `Ledger.FreePasskeySlot` | programs/passkeyauth/src/state.rs:65-67 | the first slot that is not active, none exactly when all are |
| `Ledger.FreeAttestationSlot` | programs/passkeyauth/src/state.rs:70-72 | the first slot that is not active, none exactly when all are |
| `Ledger.FirstFree` | programs/passkeyauth/src/state.rs:65-72 | the first unset mark, none exactly when all are set |
| `Ledger.FirstPrecompile` | programs/passkeyauth/src/lib.rs:97-103 | the first secp256r1 instruction among the first 16 |
| `ProgramId.ProgramIdIsItsText` | programs/passkeyauth/src/constants.rs:23 | the program id is the number that `Secp256r1SigVerify1111111111111111111111111` writes in base 58 |
| `Ledger.Program.HandleCreate` | programs/passkeyauth/src/lib.rs:39-52 | creates an empty identity or fails in `init` |
| `Ledger.Program.HandleAdd` | programs/passkeyauth/src/lib.rs:55-80 | fills the first free passkey slot, step by step as the source does, with its error cases |
| `Ledger.Program.HandleVerify` | programs/passkeyauth/src/lib.rs:87-117 | the scanning loop changes nothing and returns the specified event or error |
| `Ledger.Program.HandleRegister` | programs/passkeyauth/src/lib.rs:120-136 | creates an issuer with its first root or fails in `init` |
| `Ledger.Program.HandleUpdate` | programs/passkeyauth/src/lib.rs:139-146 | replaces the root after the account constraints; when it does is `LedgerOutcomes.UpdateOutcome` |
| `Ledger.Program.HandleClaim` | programs/passkeyauth/src/lib.rs:150-198 | writes nullifier, slot and counters in the source's order; on success the accounts are the specified ones |
| `Ledger.Program.Submit` | programs/passkeyauth/src/lib.rs:150-198 | a transaction has all its effects or none: a failing handler's partial writes are rolled back |
| `LedgerInvariants.FreeSlots` | programs/passkeyauth/src/state.rs:63-73 | in a well-formed identity the free slot is the one its count points at, none when full |
| `LedgerInvariants.ClaimEffect` | programs/passkeyauth/src/lib.rs:164-190 | a successful claim adds exactly one attestation slot and one nullifier, and counts one |
| `LedgerInvariants.ClaimKeepsInv` | programs/passkeyauth/src/lib.rs:150-198 | a claim keeps tables, references and conservation |
| `LedgerInvariants.StepKeepsInv` | programs/passkeyauth/src/lib.rs:35-199 | every instruction keeps the invariant |
| `LedgerHistory.ReachableInv` | programs/passkeyauth/src/lib.rs:35-199 | after every run: active slots are a prefix of length the stored count, at most 4; attestations carry their issuer's schema; counters agree |
| `LedgerHistory.WriteOnce` | programs/passkeyauth/src/lib.rs:62-74 | an occupied slot keeps its contents and a nullifier stays burned for the rest of every run |
| `LedgerHistory.NullifierSpentOnce` | programs/passkeyauth/src/lib.rs:305-313 | no two successful claims of a run spend one (issuer, nullifier) pair |
| `LedgerHistory.Conservation` | programs/passkeyauth/src/lib.rs:150-198 | for every issuer after every run: successful claims = stored count = burned nullifiers = active attestations naming it |
| `LedgerHistory.AddSucceedsExactly` | programs/passkeyauth/src/lib.rs:55-80 | the exact conditions for adding a passkey, the slot and contents it gets, and that no other credential appears or changes |
| `LedgerHistory.KeyProvenance` | programs/passkeyauth/src/lib.rs:55-80 | every credential in a reachable state was registered, with these contents, by its owner's own instruction, which filled this slot and no other |
| `LedgerHistory.StoredRootIsLastPublished` | programs/passkeyauth/src/lib.rs:120-146 | the stored root is the one last published by a successful register or update |
| `LedgerHistory.IssuerProvenance` | programs/passkeyauth/src/lib.rs:120-136 | every issuer was registered by its own authority and keeps the schema given then |
| `LedgerHistory.Provenance` | programs/passkeyauth/src/lib.rs:150-198 | every attestation held comes from a claim by its owner that filled this slot and no other, and verified against the root last published then |
| `LedgerHistory.ClaimIsEligible` | programs/passkeyauth/src/lib.rs:157-162 | if that root is the root of a leaf list, an accepted claim with a proof of any length runs along a stored path, from full length on through a leaf of the list, and is about a leaf for exactly full length; or a collision is extracted |
| `LedgerHistory.ClaimSucceedsExactly` | programs/passkeyauth/src/lib.rs:150-198 | the exact conditions for a claim to succeed in a reachable state |
| `LedgerHistory.ServiceProofIsClaimable` | programs/passkeyauth/src/lib.rs:157-162 | a proof made by the service over the published leaves is accepted on-chain exactly up to 2^20 leaves |
| `LedgerHistory.SameProofAgain` | programs/passkeyauth/src/lib.rs:164-169 | an accepted proof is accepted again exactly with an unspent nullifier and room in the counts |
| `LedgerHistory.UnreachableErrors` | programs/passkeyauth/src/lib.rs:71-74 | the 8-bit counters never overflow, the 64-bit one only at its maximum; the ownership errors never show in reachable states |
| `LedgerOutcomes.CreateOutcome` | programs/passkeyauth/src/lib.rs:39-52 | exactly when `create_identity` succeeds or gives each error, its event, the zeroed identity, and that nothing else changes |
| `LedgerOutcomes.AddOutcome` | programs/passkeyauth/src/lib.rs:55-80 | in every reachable state, exactly when `add_passkey` succeeds or gives each error, its event with the slot filled, and that nothing else changes |
| `LedgerOutcomes.VerifyOutcome` | programs/passkeyauth/src/lib.rs:87-117 | in every reachable state, exactly when `verify_passkey` succeeds or gives each error by what the first precompile instruction among the first 16 holds, and its event |
| `LedgerOutcomes.RegisterOutcome` | programs/passkeyauth/src/lib.rs:120-136 | exactly when `register_issuer` succeeds or gives each error, its event, the new issuer, and that nothing else changes |
| `LedgerOutcomes.UpdateOutcome` | programs/passkeyauth/src/lib.rs:139-146 | in every reachable state, `update_root` succeeds exactly for the issuer's authority; its errors, its event, and that only the root changes |
| `LedgerOutcomes.ClaimOutcome` | programs/passkeyauth/src/lib.rs:150-198 | in every reachable state, exactly when `claim_attestation` succeeds and exactly when it gives each of its errors |
| `LedgerOutcomes.ClaimChanges` | programs/passkeyauth/src/lib.rs:164-197 | a successful claim's event and every change it makes |
| `LedgerOutcomes.OwnershipGuards` | programs/passkeyauth/src/lib.rs:224-288 | in any state, reachable or not: the ownership errors appear exactly when the account passed records another owner or authority than the signer |
| `LedgerOutcomes.CounterGuards` | programs/passkeyauth/src/lib.rs:71-74 | in any state: a checked addition fails exactly at 255, or for an issuer at 2^64 - 1 |
| `LedgerHistory.OnlyTheSignersAccounts` | programs/passkeyauth/src/lib.rs:224-288 | an instruction changes no identity and no issuer's root but the signer's own |
| `LedgerHistory.PossessionExactly` | programs/passkeyauth/src/lib.rs:87-117 | verification succeeds exactly when the credential is active and the first scanned precompile instruction attests its key, reporting that message's hash |
| `LedgerHistory.IndexNamesOneKey` | programs/passkeyauth/src/lib.rs:87-117 | two successful verifications of one credential index, at any times of a run, attested the same key |
| `Engine.IdentityEngine.IngestIssuer` | offchain/crates/core/src/engine.rs:102-110 | one upsert into the issuer store |
| `Engine.IdentityEngine.BuildTree` | offchain/crates/core/src/engine.rs:118-137 | undisturbed, the three awaits store the leaves and their root, return that root, and leave the issuer in sync |
| `Engine.IdentityEngine.ProveLeaf` | offchain/crates/core/src/engine.rs:143-158 | the stored leaf with its path and index, or the error, from the leaf store alone |
| `Engine.IdentityEngine.CheckProof` | offchain/crates/core/src/engine.rs:165-185 | compares the fold with the stored root, from the issuer store alone, for proofs of any length in either build mode; the answers over runs are `EngineAnswers.VerifyAnswers` |
| `Engine.ProofVerifiesIffInSync` | offchain/crates/core/src/engine.rs:143-185 | a proof given out verifies exactly when the stored root is the root of the stored leaves |
| `Engine.AcceptedExactly` | offchain/crates/core/src/engine.rs:165-185 | over stores in sync, the accepted proofs of any length are exactly those along the path of a stored node, or a collision is extracted |
| `Engine.AcceptedIsProven` | offchain/crates/core/src/engine.rs:143-185 | over stores in sync, an accepted full-length proof is about a stored leaf, and with an index in range it is accepted exactly when it is the one `prove` gives out, or a collision is extracted |
| `Engine.StoresAreLastWrites` | offchain/crates/core/src/engine.rs:102-137 | in every interleaving both stores hold the last write of the history |
| `Engine.InSyncExactly` | offchain/crates/core/src/engine.rs:118-137 | in every interleaving the stores agree exactly when the last root written is the root of the last list put |
| `Engine.UndisturbedBuildSyncs` | offchain/crates/core/src/engine.rs:118-137 | a build whose put is the last put and whose upsert is the last root write for its issuer leaves it in sync, whatever else interleaves |
| `Engine.ProofsVerifyAfterBuild` | offchain/crates/core/src/engine.rs:118-185 | a proof given out at any time after the put of such a build is accepted at any time after its upsert, whatever happens to other issuers |
| `Engine.EveryRootHasASource` | offchain/crates/core/src/engine.rs:102-137 | in every interleaving each stored root was ingested for that issuer or is the root of a leaf list already put for it |
| `Engine.ViewSource` | offchain/crates/core/src/engine.rs:102-128 | in every interleaving a stored issuer is what its last write made it: the view ingested, or the view that the build had read, with only the root replaced |
| `Engine.FieldsComeFromAnIngest` | offchain/crates/core/src/engine.rs:102-128 | authority, schema and count of a stored issuer are always those of one ingest |
| `Engine.IngestDuringBuildIsLost` | offchain/crates/core/src/engine.rs:118-128 | an ingest between a build's read and its upsert leaves nothing behind: its fields remain only if they were there before |
| `Engine.ProvePanicsExactly` | offchain/crates/core/src/engine.rs:143-158 | `prove` panics exactly for index 0 of an issuer whose last list put is empty |
| `Engine.EmptyBuildPanics` | offchain/crates/core/src/engine.rs:118-158 | ingest, read and put over no leaves, then `prove` of index 0: a panic |
| `EngineAnswers.TaskIsItsHistory` | offchain/crates/core/src/engine.rs:118-128 | a build starts at its first read of an ingested issuer, then its first put and its first upsert after that take effect, as the steps alone say |
| `EngineAnswers.StoresAreTheirHistory` | offchain/crates/core/src/engine.rs:102-137 | the stored list and the stored root are those that the steps alone say were written last |
| `EngineAnswers.ProveAnswers` | offchain/crates/core/src/engine.rs:143-158 | in every interleaving, exactly when `prove` gives a proof (and which), an index error, a panic or no issuer, from the list put last |
| `EngineAnswers.VerifyAnswers` | offchain/crates/core/src/engine.rs:165-185 | in every interleaving, `verify_proof` accepts exactly the proofs that reach the root written last, leaves put or not; exactly when it finds no issuer or panics |
| `EngineAnswers.IngestedOnly` | offchain/crates/core/src/engine.rs:102-185 | an issuer that was only ingested verifies proofs against its root and gives none |
| `Engine.OverlapBreaksSync` | offchain/crates/core/src/engine.rs:123-128 | two builds of one issuer overlapping crosswise end in sync only if their lists have one root |
| `HexCodec.DecodeHex` | offchain/crates/types/src/lib.rs:28-44 | the decoding loop computes the recursive decoding, error cases included; what that is, `AcceptedExactly`, `PrefixIsOptional` and `DecodeOfEncode` say |
| `HexCodec.ToHex` | offchain/crates/types/src/lib.rs:46-52 | the encoding loop computes the recursive encoding |
| `HexCodec.DecodeOfEncode` | offchain/crates/types/src/lib.rs:28-52 | encoded text never starts with the stripped prefix and decodes to the bytes |
| `HexCodec.EncodeOfDecode` | offchain/crates/types/src/lib.rs:28-52 | re-encoding an accepted text gives it without one prefix, in lowercase |
| `HexCodec.SameBytesIffSameText` | offchain/crates/types/src/lib.rs:28-52 | accepted texts mean equal bytes exactly when they agree up to prefix and case |
| `HexCodec.AcceptedExactly` | offchain/crates/types/src/lib.rs:28-43 | accepted exactly when the text is twice the length in digits `0`-`9`, `A`-`F`, `a`-`f`, alone or after `0x` |
| `HexCodec.PrefixIsOptional` | offchain/crates/types/src/lib.rs:29 | a text of the right length decodes alike with and without `0x` in front; in front of encoded bytes it gives the bytes back |
| `HexCodec.EncodedAt` | offchain/crates/types/src/lib.rs:46-52 | each byte is written as its two characters out of `0123456789abcdef` |

## Left out

- Keccak-256 and P-256 themselves: the hash is a parameter, and the precompile's signature check is trusted.
- Anchor's machinery (serialisation, rent, bumps, address derivation): accounts are keyed by their seeds, `init` fails on an existing key, signers and the clock are inputs. When several account constraints fail at once, which error is reported first is a choice of the model.
- RateLimiting.RateLimiter.TryAcquireN: tokens are reals, so rounding of 64-bit floats is not modelled.
- CircuitBreaking.CircuitBreaker.OnFailure: the failure counter wraps at 32 bits, as in a build without overflow checks; a build with them panics there instead.
- Retrying.BackoffBounds: the jitter product is exact and rounded down, where the source multiplies by a 64-bit float.
- Retrying.BackoffGrowsExactly: exact for that rounded-down product; the float's rounding can move a delay by a nanosecond.
- Retrying.Retry: the operation is an oracle of results and sleeping is a sum; timeouts and the async runtime are not modelled.
- Concurrent calls on one limiter or breaker: the source's mutex makes them a sequence, which is the history here.
- Engine.IdentityEngine.BuildTree: the class runs one call at a time; interleaving is modelled by the steps of `Engine.Next`. Port failures other than a missing entry, events, snapshots and statistics are not modelled.
- GraphQL, HTTP, telemetry, configuration, keepers and the simulator: plumbing without deep properties.
