# Verification of the Spark wallet's signing, leaf management and codecs

A Dafny model of the parts of the Spark SDK whose correctness is not visible from any one function:

- **Threshold signing** (`Fermat`, `Scalars`, `Polynomials`, `Lagrange`, `CurveGroup`, `ThresholdSigner`):
  user-side threshold Schnorr signing from Shamir shares, over any prime group order. Group elements are
  modelled by their exponents, with an oddness predicate; SHA-256 and the foreign signing function are
  parameters, the latter only assumed affine in its secret key (RFC 9591, sections 4.2 and 5.3; BIP 340).
- **The signing ceremony** (`Ceremony`, `CeremonySteps`, `CeremonyRuns`): the persisted propose/sign/execute
  state machine, with processes interleaved over the same files; what each command records, when it is
  refused, and whole ceremonies up to the signature.
- **The leaf manager** (`LeafCache`, `LeafEffects`, `LeafListing`, `LeafManager`, `SyncMerge`,
  `OptimizationPlan`): the cache of one wallet as a class whose methods are the synchronous sections between
  awaits, each proved equal to a function of the whole map; what each of these does to a single leaf, field by
  field.
- **Leaf selection** (`Sorting`, `LeafSelection`, `SelectLeaves`, `ChainSelection`, `GreedyExactness`,
  `CoverSelection`): the greedy exact fit, its completeness by an exchange argument, exactly when it is
  complete, and the minimal covers.
- **Runs of the leaf manager** (`LeafRuns`, `LeafSteps`, `LeafExclusion`, `LeafConservation`): any interleaving of
  executions, swaps, optimisation, sync and stream events. What holds for every input, exactly which events
  and answers keep leaves exclusive and swaps intact, and what the owned balance does across a swap.
- **Swap batching** (`SwapBatching`, `SwapAnswers`, `SwapCallbacks`, `SwapOutcomes`): validation, chunking,
  first-fit distribution, what comes back and what is reported for each answer of the service, the callbacks
  as steps of the runs, and what success and failure of a request mean for the operation that made it.
- **Codecs** (`BigEndian`, `Ffi*`; `ProtoWire`, `Multisig*`, `Wire*`; `Bolt11Words`): the Swift bindings'
  binary format, the generated multisig protobuf codec, and the 5-to-8-bit regrouping of invoice words: round
  trips, the bytes themselves, and what the readers make of any other bytes.

Where the code and a property one would expect part ways, the model follows the code, a lemma gives an
input, and another one says exactly when the property holds: repeated indexes miss the key, which the
ceremony refuses and the signer's constructor does not
(`ThresholdSigner.ServesEveryKeyExactlyWhenDistinct`); greedy selection misses exact choices when
allowed values do not divide each other (`GreedyExactness.GreedyMissesWithoutChain`,
`GreedyExactness.NeverMissesExactly`; for one list and one target
`GreedyExactness.NeverMissesOneTargetExactly`); leaves released early can be shared
(`LeafExclusion.EarlyReleaseSharesLeaf`, `LeafExclusion.RunsAreExclusiveExactly`); an overtaking event loses a swap's value
(`LeafConservation.EarlyEventLosesSwap`, `LeafConservation.RunsAreSoundExactly`); a skipped batch loses its
leaves (`SwapBatching.SkippedBatchIsLost`, `SwapBatching.NothingIsLostExactly`); a request that fails
half-way leaves unsent leaves pending (`SwapOutcomes.FailureStrandsLeaf`,
`SwapOutcomes.FailureRestoresUnsentExactly`); a lifted boolean is lowered to its own byte only from 0 and 1
(`FfiRoundTrip.BoolLiftLower`).

Run `dafny verify dfyconfig.toml` in this directory.

## Model

| member | source | states |
|---|---|---|
| Scalars.ModPow | dkg/chilldkg-spark-signer.ts:721-733 | square-and-multiply returns base^exponent reduced by the modulus for every positive exponent, and 1 otherwise, and terminates |
| Scalars.InvertScalar | dkg/chilldkg-spark-signer.ts:735-740 | refuses only the literal zero; for a prime order and a value not divisible by it, value times the result is 1 |
| Scalars.InverseIsInverse | dkg/ceremony.ts:718-737 | exponent q - 2 inverts modulo every prime q, from Fermat's little theorem |
| Fermat.FermatLittle | dkg/chilldkg-spark-signer.ts:735-740 | a^(q-1) is 1 modulo every prime q that does not divide a: why the inversion exponent works |
| Lagrange.LambdaFoldMeaning | dkg/chilldkg-spark-signer.ts:708-719 | the fold over the other indexes fails exactly when two different indexes are the same scalar, and otherwise its result times prod(x - x_j) is prod(-x_j) |
| Lagrange.InterpolationAtZero | dkg/chilldkg-spark-signer.ts:708-719 | for every prime, every polynomial with at most as many coefficients as there are distinct indexes, and any shares of it, the coefficient-weighted sum is the polynomial's value at zero |
| Lagrange.RecoversExactlyWhenDistinct | dkg/ceremony.ts:705-716 | the coefficients recover every admissible polynomial's value at zero if and only if no index is repeated |
| Lagrange.RepeatedIndexLosesSecret | dkg/chilldkg-spark-signer.ts:708-719 | with a repeated index there is an admissible polynomial, with a non-zero secret and every selected share worth 1, that the coefficients do not recover |
| ThresholdSigner.ServesEveryKeyExactlyWhenDistinct | dkg/chilldkg-spark-signer.ts:572-617 | the signer created from t participants of any honest key generation recombines to that key's even-y secret, for every key, if and only if no selected index is repeated |
| ThresholdSigner.RepeatedIndexMissesKey | dkg/chilldkg-spark-signer.ts:683-706 | for every selection with a repeated index there is an honest key generation the constructor accepts it for, whose signer recombines to something else |
| CurveGroup.NormalizedIsEvenY | dkg/chilldkg-spark-signer.ts:637-643 | normalising the group key gives the key of the secret, or of its negation when the raw key is odd |
| ThresholdSigner.CreatedSigner | dkg/chilldkg-spark-signer.ts:572-617 | from an honest key generation and t distinct participants the created signer holds shares that recombine to the even-y secret and that secret's public key |
| ThresholdSigner.CreatesExactly | dkg/chilldkg-spark-signer.ts:572-617 | for any artifact: a signer is created if and only if indexes count from one, as many are selected as the threshold says, and each selected one has a share that matches its published one where there is one; other failures have their own errors, and the key of a created signer has an even y |
| ThresholdSigner.ShareIsLoadedExactly | dkg/chilldkg-spark-signer.ts:683-706 | the first output of an index decides: a missing one, a missing or unusable share and a mismatch with the published one each fail in their own way, and otherwise the share or its negation is loaded |
| CurveGroup.DecodesExactly | dkg/chilldkg-spark-signer.ts:645-656 | exactly the encodings of points are decoded, each to the point it encodes |
| ThresholdSigner.SharesRecombine | dkg/chilldkg-spark-signer.ts:683-706 | any t distinct selected shares, negated or not, recombine to the secret or its negation |
| ThresholdSigner.LeafKeyMatchesSecret | dkg/chilldkg-spark-signer.ts:645-656 | the derived leaf key is the key of secret plus tweak, and derivation fails exactly when that sum is the identity |
| ThresholdSigner.CombineIsDirect | dkg/chilldkg-spark-signer.ts:355-424 | for every affine signing function, two probe calls plus the weighted shares plus the tweak give what one call with secret + tweak gives |
| ThresholdSigner.ThresholdSigningIsDirectSigning | dkg/chilldkg-spark-signer.ts:355-424 | for either parity of the group key, t participants of an honest key generation sign a leaf as whoever holds its single secret would: one foreign call with that secret on this message, statechain, adaptor key, verifying key and commitment, the nonce remembered for the commitment, and the secret's own public key; an unknown commitment and a leaf without a key are refused |
| ThresholdSigner.HeldSecretSignsDirectly | dkg/chilldkg-spark-signer.ts:355-424 | the same for any signer whose shares add up to a secret, however it came by them |
| ThresholdSigner.AllSubsetsAgree | dkg/chilldkg-spark-signer.ts:355-424 | every two t-subsets produce the same signature share |
| ThresholdSigner.ChillDkgSparkSigner.GetRandomSigningCommitment | dkg/chilldkg-spark-signer.ts:334-345 | hands out the nonce's own commitment, remembers the nonce for it, and keeps every remembered nonce the opening of the commitment it is stored under |
| ThresholdSigner.ChillDkgSparkSigner.GetNonceForSelfCommitment | dkg/chilldkg-spark-signer.ts:347-354 | a commitment known here yields a nonce that opens it, any other one the inherited answer |
| ThresholdSigner.ChillDkgSparkSigner.SignFrost | dkg/chilldkg-spark-signer.ts:355-424 | the method returns the specified share or error, changing nothing; when its shares add up to a secret, that is what direct signing with the secret plus the leaf's tweak returns, field by field |
| Ceremony.FillShares | dkg/ceremony.ts:664-682 | the loop fills each signer's share in place and sums them, or stops with the first error |
| Ceremony.AggregateAuthorizationSignature | dkg/ceremony.ts:646-692 | on success the proposal is exactly the aggregated one; otherwise the specified error is thrown |
| Ceremony.Disk.RunSign | dkg/ceremony.ts:356-398 | a successful step persists the signed proposal, any failure leaves every file as it was |
| CeremonySteps.ProposalRecords | dkg/ceremony.ts:250-337 | a proposal is made exactly when its group file exists, and names the group's threshold, size and even-y key and each of the caller's fields, is hashed as a whole and starts collecting without signers |
| CeremonySteps.SignRecords | dkg/ceremony.ts:356-398 | an accepted signature short of the threshold adds exactly one entry, of this participant, share file, nonce and commitment, at the end of the signers, and changes nothing else |
| CeremonySteps.SignRefusesExactly | dkg/ceremony.ts:356-398 | everything else is refused for its own reason in the source's order, and an aggregated proposal comes back as it is |
| CeremonySteps.AggregateRecords | dkg/ceremony.ts:646-692 | a completed aggregation keeps header, execution and every signer's data, fills in each share, and stores their sum beside the nonce point |
| CeremonySteps.AggregateRefuses | dkg/ceremony.ts:646-682 | for any proposal: a missing group, no signers, a commitment that is no point, commitments that cancel out, and the first signer whose share file is missing or whose index collides with another, each with its own error |
| CeremonySteps.AggregateDecides | dkg/ceremony.ts:664-691 | once everybody can share, z is the sum of the nonces and weighted shares, and the aggregation succeeds if and only if z, the challenge and both sides are non-zero and z*G = R + c*P; otherwise the first failing check decides |
| CeremonySteps.CeremonyCompletesExactly | dkg/ceremony.ts:235-398 | as a run: after a proposal and t sign processes with honest shares of different participants the proposal on disk is aggregated, holds those participants in order and carries the signature of the group's secret, if and only if the nonce sum, the challenge and z are non-zero; otherwise it still holds the first t - 1 |
| CeremonySteps.FinishSignWrites | dkg/ceremony.ts:380-396 | a sign process writes its result where it read, and only when there is a new one |
| CeremonySteps.ProposalIsWritten | dkg/ceremony.ts:326-337 | a proposal replaces whatever its file held and touches nothing else |
| CeremonySteps.OnlyAggregatedExecutes | dkg/ceremony.ts:400-408 | in every run, whatever executes read an aggregated proposal |
| CeremonySteps.ClaimIsRecordedOnce | dkg/ceremony.ts:409-452 | an executing process records a claim with its faucet transaction exactly when it has none, keeping everything else |
| CeremonySteps.ResultIsRecordedOnce | dkg/ceremony.ts:453-498 | the same for the result |
| CeremonyRuns.LastSignerAggregates | dkg/ceremony.ts:375-395 | the signer that reaches the threshold enters the aggregation with distinct indexes, exactly t signers and an unchanged hash |
| CeremonyRuns.EveryRunIsGood | dkg/ceremony.ts:235-498 | over every interleaving of propose, sign and execute processes each proposal on disk and in memory has distinct indexes, at most t signers, is aggregated exactly at t and then carries a verifying signature, and still matches its hash |
| CeremonyRuns.AggregateGood | dkg/ceremony.ts:684-691 | a completed aggregation satisfies z*G = R + c*P for the normalised key |
| CeremonyRuns.HonestSharesAggregate | dkg/ceremony.ts:646-692 | with honest shares and any nonces, for either key parity, aggregation fails if and only if the nonce sum, z or the challenge is zero; it never fails to verify, and z is determined |
| LeafCache.TransitionStep | packages/spark-sdk/src/services/leaf-manager.ts:1574-1598 | a list transition is one move per listed leaf with an allowed edge, however ids repeat |
| LeafEffects.TransitionEffect | packages/spark-sdk/src/services/leaf-manager.ts:53-74 | which leaves a transition touches, edge by edge of the status graph written out as pairs: each listed leaf with an edge gets the status and the source given, keeps its node, and is gone when spent; every other record stays |
| LeafCache.OwnedPlusIncoming | packages/spark-sdk/src/services/leaf-manager.ts:992-1015 | owned plus incoming is the value of all cached leaves when nothing Spent is stored |
| LeafManager.LeafManager.TransitionLeaves | packages/spark-sdk/src/services/leaf-manager.ts:1574-1598 | the loop computes the list transition: allowed edges move, Spent deletes, everything else stays; LeafEffects.TransitionEffect says what that does to each leaf |
| LeafManager.LeafManager.RestoreLocalLockedToAvailable | packages/spark-sdk/src/services/leaf-manager.ts:1936-1947 | exactly the listed leaves that are still LOCAL_LOCKED become AVAILABLE without source |
| LeafEffects.RestoreEffect | packages/spark-sdk/src/services/leaf-manager.ts:1936-1947 | leaf by leaf: the status becomes AVAILABLE, the source none, the node stays; every other record stays |
| LeafManager.LeafManager.MarkLockedOutgoing | packages/spark-sdk/src/services/leaf-manager.ts:485-494 | exactly the listed leaves that are still LOCAL_LOCKED become OUTGOING |
| LeafManager.LeafManager.UpdateLeavesSource | packages/spark-sdk/src/services/leaf-manager.ts:1600-1608 | the source of every listed leaf that is not AVAILABLE is replaced |
| LeafEffects.UpdateSourceEffect | packages/spark-sdk/src/services/leaf-manager.ts:1600-1608 | leaf by leaf: only the source changes, and only of listed leaves that are not AVAILABLE |
| LeafManager.LeafManager.RefreshTreeNodes | packages/spark-sdk/src/services/leaf-manager.ts:456-481 | renewed nodes replace cached ones, unknown ids are ignored, the last copy wins |
| LeafEffects.RefreshEffect | packages/spark-sdk/src/services/leaf-manager.ts:456-481 | a cached leaf gets the last copy of its node and keeps status and source; others stay |
| LeafManager.LeafManager.AddAvailableLeaves | packages/spark-sdk/src/services/leaf-manager.ts:543-574 | the loop of addLeaves computes AddLeaves |
| LeafEffects.AddedEffect | packages/spark-sdk/src/services/leaf-manager.ts:543-574 | an added leaf not in flight is AVAILABLE afterwards with the value of its last copy; one already available with that value throughout keeps its record, any other loses its source |
| LeafManager.LeafManager.AddIncomingLeaves | packages/spark-sdk/src/services/leaf-manager.ts:578-602 | the loop of addIncomingLeaves computes AddIncoming |
| LeafEffects.AnnouncedEffect | packages/spark-sdk/src/services/leaf-manager.ts:578-602 | an announced leaf that is unknown or INCOMING becomes INCOMING from this transfer with its last copy |
| LeafManager.LeafManager.SetAvailable | packages/spark-sdk/src/services/leaf-manager.ts:667-686 | claimed leaves are stored as AVAILABLE whatever they were, with the given source |
| LeafEffects.StoredEffect | packages/spark-sdk/src/services/leaf-manager.ts:667-686 | the last copy of each leaf is stored as AVAILABLE with the source, and no other leaf changes |
| LeafManager.LeafManager.EvictStaleAvailable | packages/spark-sdk/src/services/leaf-manager.ts:609-632 | exactly the sourceless AVAILABLE leaves outside the fresh set are removed |
| LeafEffects.EvictEffect | packages/spark-sdk/src/services/leaf-manager.ts:609-632 | a leaf goes if and only if it is AVAILABLE, has no source and is not listed; claimed, deposited and swapped leaves and everything in flight stay |
| LeafManager.LeafManager.RemoveLeaves | packages/spark-sdk/src/services/leaf-manager.ts:634-646 | exactly the listed ids are removed |
| LeafManager.LeafManager.HandleDepositEvent | packages/spark-sdk/src/services/leaf-manager.ts:754-820 | the cache becomes DepositEvent of it, whose effect is the next row, and verification is asked for exactly for an unknown available leaf after the first sync |
| LeafRuns.DepositEffect | packages/spark-sdk/src/services/leaf-manager.ts:754-820 | a deposit touches only its own leaf and never one in flight or available; the leaf becomes available exactly when reported available and either INCOMING or unknown before the first sync, and INCOMING exactly when unknown and being created |
| LeafManager.LeafManager.VerifyAndAddLeaf | packages/spark-sdk/src/services/leaf-manager.ts:842-877 | a confirmed leaf is added only when unknown; it counts as added exactly when it ends up AVAILABLE |
| LeafEffects.VerifiedEffect | packages/spark-sdk/src/services/leaf-manager.ts:842-877 | an unknown confirmed leaf becomes AVAILABLE as a deposit; no other leaf changes |
| LeafManager.LeafManager.HandleTransferEvent | packages/spark-sdk/src/services/leaf-manager.ts:879-979 | returned, sender-initiated and terminal events as one state change, with reclaimed leaves and swap-sourced leaves left out where the source leaves them out; its effect is the next two rows |
| LeafEffects.TransferEffect | packages/spark-sdk/src/services/leaf-manager.ts:879-979 | for each phase, status and source, named or not: a return makes what was in flight or incoming available without source; a start makes what was available or locked outgoing, or pending for a swap, under this transfer; an end removes exactly the named owned leaves that no swap holds and that were not given back; nothing else changes |
| LeafEffects.TransferMovesOwned | packages/spark-sdk/src/services/leaf-manager.ts:879-979 | the end of a transfer lowers the owned balance by exactly the value of the leaves delivered, a start leaves it alone, and a return raises it by exactly the incoming value it names |
| LeafManager.LeafManager.GetLeavesByStatus | packages/spark-sdk/src/services/leaf-manager.ts:1965-1972 | lists each cached leaf of the status exactly once |
| LeafManager.LeafManager.SumByStatus | packages/spark-sdk/src/services/leaf-manager.ts:992-1015 | a balance is the total value of the counted statuses |
| LeafManager.LeafManager.Balances | packages/spark-sdk/src/services/leaf-manager.ts:992-1015 | the three balances, with owned + incoming equal to everything cached |
| LeafManager.LeafManager.SyncSection | packages/spark-sdk/src/services/leaf-manager.ts:197-282 | the locked section of sync computes Merge and marks the manager as synced |
| SyncMerge.MergeIsPriority | packages/spark-sdk/src/services/leaf-manager.ts:197-282 | for every snapshot, the four loops plus restoration are the priority map LOCAL_LOCKED > OUTGOING > SWAP_PENDING > INCOMING outside counter-swaps > AVAILABLE |
| LeafEffects.SyncReports | packages/spark-sdk/src/services/leaf-manager.ts:197-282 | a local lock keeps its record; otherwise the last report as sent makes the leaf OUTGOING under that transfer with that node; without one the last pending swap that lists it makes it SWAP_PENDING under that swap |
| LeafEffects.SyncOffers | packages/spark-sdk/src/services/leaf-manager.ts:197-282 | without lock or report the leaf is INCOMING under its last transfer that is no counter-swap, or else AVAILABLE without source with the last node listed as available, or else gone |
| SyncMerge.MergeIsIdempotent | packages/spark-sdk/src/services/leaf-manager.ts:197-282 | merging the same snapshot again changes nothing and the preserved records are the same |
| SyncMerge.OnlyLocalLocksStayLocked | packages/spark-sdk/src/services/leaf-manager.ts:197-282 | exactly the local locks are locked afterwards, each unchanged |
| SyncMerge.MergeKeepsWellFormed | packages/spark-sdk/src/services/leaf-manager.ts:197-282 | each id is stored once, under its own name, never Spent |
| SelectLeaves.SelectLeaves | packages/spark-sdk/src/services/leaf-manager.ts:1256-1298 | the nested loops with the used-id set compute the greedy batches under their original indexes, and the success flag |
| SelectLeaves.SelectionIsSound | packages/spark-sdk/src/services/leaf-manager.ts:1256-1298 | batches are disjoint, without repeats, drawn from the available leaves, and when the flag is set each is worth exactly its target |
| LeafSelection.ProcessingOrder | packages/spark-sdk/src/services/leaf-manager.ts:1262-1266 | targets are processed from the smallest to the largest, equal ones in the order given |
| ChainSelection.FoundExactlyWhenPossible | packages/spark-sdk/src/services/leaf-manager.ts:1256-1298 | when available values form a divisibility chain, selection succeeds if and only if some disjoint choice of leaves meets every target exactly |
| ChainSelection.FoundGivesChoice | packages/spark-sdk/src/services/leaf-manager.ts:1256-1298 | success always gives such a choice, chain or not |
| GreedyExactness.NeverMissesExactly | packages/spark-sdk/src/services/leaf-manager.ts:1256-1298 | over a set of allowed leaf values, selection finds every exact choice, for all lists of such leaves and all targets, if and only if of any two allowed values the smaller divides the larger |
| GreedyExactness.GreedyMissesWithoutChain | packages/spark-sdk/src/services/leaf-manager.ts:1262-1265 | for any two values of which the smaller does not divide the larger: one leaf of the larger and enough of the smaller hold an exact choice that the greedy pass misses |
| GreedyExactness.NeverMissesOneTargetExactly | packages/spark-sdk/src/services/leaf-manager.ts:1256-1298 | over one list of leaves, selection finds every exact choice for a single target, whatever the amount, if and only if no leaf is harmful to take first: whenever smaller leaves are worth an amount that reaches its worth, some of them are also worth that much less |
| GreedyExactness.ExchangeableMissesTwoTargets | packages/spark-sdk/src/services/leaf-manager.ts:1256-1298 | that condition does not carry over to several targets: leaves 4, 3, 2, 1 satisfy it and targets 1 and 5 are missed |
| CoverSelection.ReadOnlySelectionIsSmallest | packages/spark-sdk/src/services/leaf-manager.ts:1122-1134 | a covered amount is covered with the fewest possible leaves; an uncovered one returns every available leaf |
| CoverSelection.SwapSelectionSucceedsWhenCovered | packages/spark-sdk/src/services/leaf-manager.ts:1301-1316 | choosing leaves to swap succeeds if and only if the available value covers the amount |
| CoverSelection.SwapSelectionIsMinimal | packages/spark-sdk/src/services/leaf-manager.ts:1301-1316 | the chosen leaves are available, cover the amount, fall short without their largest, and no leaf left out is smaller than any of them |
| CoverSelection.OneLeafPerTargetIsEnough | packages/spark-sdk/src/services/leaf-manager.ts:1234-1241 | with one available leaf per target, whatever else is available, selection succeeds |
| LeafListing.ListedValueIsBalance | packages/spark-sdk/src/services/leaf-manager.ts:992-999 | the listed leaves are worth the balance of their status |
| LeafListing.FoundIsExact | packages/spark-sdk/src/services/leaf-manager.ts:1148-1156 | a found selection meets each target exactly with disjoint cached available leaves |
| LeafListing.FoundInAnyOrder | packages/spark-sdk/src/services/leaf-manager.ts:1256-1298 | whatever order the cache lists its leaves in, success means an exact choice exists, and on a divisibility chain failure means there is none |
| LeafListing.ReselectionSucceeds | packages/spark-sdk/src/services/leaf-manager.ts:1224-1241 | after a swap that returned one leaf per target the re-selection cannot fail |
| LeafManager.TakeUntilCovered | packages/spark-sdk/src/services/leaf-manager.ts:1301-1316 | the shared loop takes the shortest prefix that reaches the amount |
| LeafManager.LeafManager.SelectLeavesReadOnly | packages/spark-sdk/src/services/leaf-manager.ts:1122-1134 | returns the read-only selection of a listing of the available leaves, locking nothing |
| LeafManager.LeafManager.SelectOrLockForSwap | packages/spark-sdk/src/services/leaf-manager.ts:1140-1167 | either batch i is worth exactly target i, disjoint and LOCAL_LOCKED, or the cover for a swap is LOCAL_LOCKED, or nothing changed because the available balance is below the targets; when the available values form a divisibility chain it selects exactly when some disjoint exact choice exists, however the cache lists its leaves |
| LeafManager.LeafManager.FinishSwap | packages/spark-sdk/src/services/leaf-manager.ts:1223-1249 | sent leaves are spent and received ones stored, then exact LOCAL_LOCKED batches are returned; a returned selection means an exact choice existed, on a divisibility chain it is returned if and only if one does, and None is impossible when the received leaves hold one per target |
| LeafManager.LeafManager.LockAllAvailable | packages/spark-sdk/src/services/leaf-manager.ts:704-712 | every available leaf is listed once and locked, none is left available |
| OptimizationPlan.FillBuckets | packages/spark-sdk/src/services/leaf-manager.ts:1425-1433 | the value buckets hold the available leaves of each value in order |
| OptimizationPlan.TakeBatch | packages/spark-sdk/src/services/leaf-manager.ts:1435-1444 | a planned swap takes the next leaf of each wanted value and skips values that ran out |
| OptimizationPlan.PlanIsLockable | packages/spark-sdk/src/services/leaf-manager.ts:1435-1455 | whatever the plan asks for, each leaf is planned at most once and was available |
| OptimizationPlan.PlanIsExact | packages/spark-sdk/src/services/leaf-manager.ts:1435-1444 | with enough leaves of every value each batch holds exactly its planned values |
| OptimizationPlan.PlanTakesWhatThereIs | packages/spark-sdk/src/services/leaf-manager.ts:1435-1444 | for any plan and stock: up to each planned swap, as many leaves of each value are planned as were wanted so far or are available, whichever is less |
| LeafManager.LeafManager.StartOptimization | packages/spark-sdk/src/services/leaf-manager.ts:1384-1457 | refused while one runs, void without a plan, otherwise the flag is set and exactly the planned leaves are locked and remembered |
| LeafManager.LeafManager.LockPlan | packages/spark-sdk/src/services/leaf-manager.ts:1434-1455 | the plan loop locks batch by batch and records the same ids |
| LeafManager.LeafManager.CompleteBatch | packages/spark-sdk/src/services/leaf-manager.ts:1493-1512 | a returned batch is spent, its ids forgotten and its outputs stored |
| LeafManager.LeafManager.EndOptimization | packages/spark-sdk/src/services/leaf-manager.ts:1540-1556 | cleanup restores what any batch still has locked, clears the id set and the flag |
| LeafRuns.EveryRunIsClean | packages/spark-sdk/src/services/leaf-manager.ts:106-111 | over every interleaving and all outside inputs: whatever is locked is held by the unfinished operation that locked it, an ended operation leaves nothing locked, at most one optimisation runs, its id set is empty when none does, and no stored leaf is Spent |
| LeafSteps.BeginsExactly | packages/spark-sdk/src/services/leaf-manager.ts:412-455 | an execution or a swap begins if and only if it is new and its leaves are available, locks exactly those and leaves everything else of the run alone |
| LeafSteps.OptimizationBeginsExactly | packages/spark-sdk/src/services/leaf-manager.ts:1384-1457 | an optimisation begins if and only if none runs, it has batches, all available and none sharing a leaf; it locks exactly their leaves |
| LeafSteps.FailureExactly | packages/spark-sdk/src/services/leaf-manager.ts:1186-1191 | a failed swap ends and restores exactly its leaves still locked here |
| LeafSteps.ReturnExactly | packages/spark-sdk/src/services/leaf-manager.ts:1223-1249 | an initiated swap can return exactly when what it re-selects is available then; its owned leaves are gone, the last copy of each received one is available, and it holds the re-selected leaves or is over |
| LeafSteps.BatchReturnExactly | packages/spark-sdk/src/services/leaf-manager.ts:1493-1512 | the return of a batch drops its leaves, stores what came back, forgets its ids and moves on to the next batch, neither registered nor initiated |
| LeafSteps.OptimizationEndsExactly | packages/spark-sdk/src/services/leaf-manager.ts:1540-1556 | an optimisation can end at any point, restoring exactly what its batches still have locked and clearing flag and ids |
| LeafSteps.EveryRunRemembers | packages/spark-sdk/src/services/leaf-manager.ts:1384-1556 | in every run the id set of a running optimisation holds exactly the leaves of the batches that have not returned, and the manager counts as synced exactly once a sync happened |
| LeafRuns.ExecutionSettles | packages/spark-sdk/src/services/leaf-manager.ts:483-507 | an execution that ends settles exactly the leaves it still had locked, OUTGOING on success and AVAILABLE without source on failure; leaves already advanced stay as they are |
| LeafRuns.AddLeavesEffect | packages/spark-sdk/src/services/leaf-manager.ts:543-574 | addLeaves touches only what it is given and what is not in flight |
| LeafRuns.AddIncomingEffect | packages/spark-sdk/src/services/leaf-manager.ts:578-602 | addIncomingLeaves touches only unknown or incoming leaves |
| LeafExclusion.RunsAreExclusiveExactly | packages/spark-sdk/src/services/leaf-manager.ts:412-751 | over every interleaving: at every point of a run each held leaf was last locked by its holder and, while cached, is in flight, if and only if every event spares the held leaves and no swap returns a leaf that stays held |
| LeafExclusion.EventExclusiveExactly | packages/spark-sdk/src/services/leaf-manager.ts:754-979 | one event keeps the leaves exclusive if and only if it spares each held one: no claim names it, no return or expiry names it while cached, no release names it while LOCAL_LOCKED, no addition or deposit names it once it has left the cache, and no sync offers it unless it is LOCAL_LOCKED |
| LeafExclusion.StepExclusiveExactly | packages/spark-sdk/src/services/leaf-manager.ts:1223-1232 | a step keeps the leaves exclusive if and only if the swap it finishes returns no leaf that some operation goes on holding |
| LeafExclusion.NoLeafIsHeldTwice | packages/spark-sdk/src/services/leaf-manager.ts:412-751 | in such a run two unfinished operations never hold the same leaf |
| LeafExclusion.StepTouchesOnlyItsOwn | packages/spark-sdk/src/services/leaf-manager.ts:484-507 | restoring, marking and spending change only leaves the operation locked itself; anything else a step changes it locks or receives in that step |
| LeafExclusion.SyncInFlightExactly | packages/spark-sdk/src/services/leaf-manager.ts:197-282 | after a sync a leaf is in flight or out of the cache if and only if it was locked here or the snapshot does not offer it: lists it as available, or as incoming outside a counter-swap, and not as sent |
| LeafExclusion.EarlyReleaseSharesLeaf | packages/spark-sdk/src/services/leaf-manager.ts:1930-1947 | releasing leaves before the executor returns breaks exclusivity: a second operation locks the leaf and the first one's success marks it OUTGOING |
| LeafConservation.SwapReturnBalances | packages/spark-sdk/src/services/leaf-manager.ts:1223-1232 | the return of a swap removes exactly the captured value from owned and adds exactly the received value |
| LeafConservation.EventConservesOwned | packages/spark-sdk/src/services/leaf-manager.ts:879-979 | a sender-initiated event moves value inside owned, and the end of a transfer whose leaves are being swapped changes nothing |
| LeafConservation.MovesConserveOwned | packages/spark-sdk/src/services/leaf-manager.ts:1574-1608 | every other step of an operation moves value only inside the owned statuses |
| LeafConservation.SparesSwapExactly | packages/spark-sdk/src/services/leaf-manager.ts:879-979 | an event leaves a pending leaf cached with its captured value, locked and then SWAP_PENDING with a swap source, if and only if it spares it: for a sender's event that its swap is under way, for the end of a transfer that its source says it is being swapped |
| LeafConservation.RunsAreSoundExactly | packages/spark-sdk/src/services/leaf-manager.ts:1169-1194 | over every interleaving: the leaves stay exclusive and every pending swap intact at every point of a run if and only if each action is undisturbed where it happens |
| LeafConservation.EventMovesOnlyOtherValue | packages/spark-sdk/src/services/leaf-manager.ts:992-1015 | an event that spares the swaps changes the owned balance by exactly what it does to the leaves that are in no swap |
| LeafConservation.OwnedFollowsFlow | packages/spark-sdk/src/services/leaf-manager.ts:1140-1249 | from any point of an undisturbed run on, while swaps return new ids worth what they sent, owned changes by exactly what syncs, additions, deposits, claims and all other events do to leaves outside swaps, at every await |
| LeafConservation.OwnedIsTheSameAtEveryAwait | packages/spark-sdk/src/services/leaf-manager.ts:1140-1249 | in particular, when the only events are the sender's own, owned is the same at every await |
| LeafConservation.EarlyEventLosesSwap | packages/spark-sdk/src/services/leaf-manager.ts:949-970 | a sender event before the swap's own callback replaces the swap source, and the transfer's end then drops the leaf and its value while the swap still runs |
| SwapBatching.ValidatesExactly | packages/spark-sdk/src/services/swap.ts:257-324 | a request is accepted if and only if every target is a positive safe integer that some at most 64 of the leaves are worth, and the leaves are worth all targets together |
| SwapBatching.RefusesExactly | packages/spark-sdk/src/services/swap.ts:257-324 | each refusal has its own error, in the order no targets, more than the leaves are worth, a target that is not positive, an unsafe one, and one no batch can serve |
| SwapBatching.ChunkArray | packages/spark-sdk/src/utils/chunkArray.ts:1-7 | the loop cuts the list into consecutive chunks |
| SwapBatching.FindRoom | packages/spark-sdk/src/services/swap.ts:98-113 | the inner loop finds the first batch with room |
| SwapBatching.DistributeTargetAmounts | packages/spark-sdk/src/services/swap.ts:87-128 | the loop computes the first-fit-decreasing distribution, or the first target without room |
| SwapBatching.DistributionPartitions | packages/spark-sdk/src/services/swap.ts:87-128 | the shares partition the multiset of targets and no batch is given more than its leaves are worth |
| SwapBatching.UnassignedHasNoRoom | packages/spark-sdk/src/services/swap.ts:98-113 | the distribution fails with the first target, largest first, for which every batch's remaining worth is too small |
| SwapBatching.LargestTargetOpensFirstBatch | packages/spark-sdk/src/services/swap.ts:300-322 | for validated inputs the largest target opens batch 0 |
| SwapBatching.RevalidationSucceeds | packages/spark-sdk/src/services/swap.ts:136 | validating an executed batch again cannot fail |
| SwapBatching.RequestLeavesSwap | packages/spark-sdk/src/services/swap.ts:41-85 | the method executes the batches that have targets, in order, concatenates the answers, and makes the two callbacks of each executed batch in order, up to the first failure; what that means for each outcome is in the next rows |
| SwapAnswers.RequestReportsExactly | packages/spark-sdk/src/services/swap.ts:130-256 | for every outcome and every answer of the service: the leaves reported as sent are exactly those of the batches that were reached and not refused before sending, so also those of a batch the service refused afterwards |
| SwapAnswers.RequestEndsExactly | packages/spark-sdk/src/services/swap.ts:41-85 | a request succeeds if and only if every reached batch is answered with leaves, and otherwise fails with the answer of the one that is not |
| SwapAnswers.RegisteredThenInitiated | packages/spark-sdk/src/services/swap.ts:149-157 | every reached batch is registered, and its report follows directly when its transfer left the wallet |
| SwapAnswers.RefusedRequest | packages/spark-sdk/src/services/swap.ts:41-65 | a request that is refused or cannot be distributed calls back nothing and fails with that error |
| SwapAnswers.SentLeavesStayPending | packages/spark-sdk/src/services/leaf-manager.ts:1169-1191 | as a run: once some batch was sent, the manager's cleanup after a failed request leaves every leaf it handed over SWAP_PENDING and none AVAILABLE |
| SwapAnswers.RefusalLeavesPending | packages/spark-sdk/src/services/leaf-manager.ts:1186-1191 | in particular after a request that ended in the service's refusal |
| SwapCallbacks.CallbackEffect | packages/spark-sdk/src/services/leaf-manager.ts:1171-1184 | a registration names the swap as the source of each leaf still locked; a report makes the leaf SWAP_PENDING and keeps that source |
| SwapCallbacks.CallbacksAreSteps | packages/spark-sdk/src/services/swap.ts:149-154 | whatever other operations and events did in between, each callback of a request is a step its operation can take in the runs of the leaf manager, registration before initiation |
| SwapCallbacks.FinishFollows | packages/spark-sdk/src/services/leaf-manager.ts:1169-1194 | a request that returned leaves has called back, so that its operation can finish with them |
| SwapCallbacks.EveryLeafIsReported | packages/spark-sdk/src/services/swap.ts:41-85 | a request that returned leaves has reported every leaf handed to it as sent, each as often as it was handed over, except the leaves of skipped batches, which are worth what is lost |
| SwapOutcomes.SwapBalancesExactly | packages/spark-sdk/src/services/leaf-manager.ts:1169-1241 | when each answer is worth what it was sent, a request returns what its operation captured if and only if every batch of worth was given a target |
| SwapOutcomes.SwapBalances | packages/spark-sdk/src/services/leaf-manager.ts:1169-1241 | in particular for at most 64 leaves and when the targets ask for everything |
| SwapOutcomes.ReturnIsBalancedExactly | packages/spark-sdk/src/services/leaf-manager.ts:1223-1241 | the step that stores the returned leaves is balanced, as the conservation of owned asks, if and only if the leaves are new and every batch of worth was given a target |
| SwapOutcomes.FailureRestoresUnsentExactly | packages/spark-sdk/src/services/leaf-manager.ts:1169-1191 | after a failed request the manager restores exactly the leaves that were never reported as sent if and only if nothing or everything was reported |
| SwapOutcomes.SingleBatchIsAllOrNothing | packages/spark-sdk/src/services/swap.ts:48-55 | for at most 64 leaves it is always one of the two |
| SwapOutcomes.UnsentFailureRestoresExactly | packages/spark-sdk/src/services/leaf-manager.ts:1169-1191 | with more leaves, when a batch could not be sent, exactly the unreported leaves are restored if and only if no earlier batch was reported |
| SwapOutcomes.FailureStrandsLeaf | packages/spark-sdk/src/services/leaf-manager.ts:1176-1191 | 64 leaves worth 10 and one worth 5, for targets 3 and 638: the manager hands over all of them, and when the second batch cannot be sent its leaf stays SWAP_PENDING though it was never reported |
| SwapBatching.SwapReturnsAllButSkipped | packages/spark-sdk/src/services/swap.ts:66-84 | when each answer is worth what it was sent, the result is worth the leaves less the batches that were skipped |
| SwapBatching.NothingIsLostExactly | packages/spark-sdk/src/services/swap.ts:68-74 | when each answer is worth what it was sent, everything comes back if and only if every batch of worth was given a target |
| SwapBatching.SkippedAtMostTheRest | packages/spark-sdk/src/services/swap.ts:50-74 | at most what the targets leave over is skipped: nothing for at most 64 leaves or when the targets ask for everything |
| SwapBatching.SkippedBatchIsLost | packages/spark-sdk/src/services/swap.ts:68-74 | 64 leaves worth 1 and a larger one, for a target of 65: the manager finds no exact selection, hands over all of them, and one unit does not come back |
| SwapBatching.SwapReturnsEveryTarget | packages/spark-sdk/src/services/swap.ts:41-85 | however it is split, the result holds one leaf per target when each answer does |
| FfiRoundTrip.DecodeEncode | packages/spark-sdk/ios/spark_frost.swift:401-527 | for every schema and value with lengths below 2^31, decoding takes exactly the encoded bytes and leaves any suffix alone |
| FfiBytes.IntegerBytes | packages/spark-sdk/ios/spark_frost.swift:140-147 | byte i of a k-byte integer n is (n / 256^(k-1-i)) mod 256 |
| FfiBytes.BlockBytes | packages/spark-sdk/ios/spark_frost.swift:504-527 | bytes and strings are their length in four such bytes and then themselves |
| FfiBytes.OptionBytes | packages/spark-sdk/ios/spark_frost.swift:1482-1489 | an absent option is the byte 0, a present one the byte 1 and then its value |
| FfiBytes.SequenceBytes | packages/spark-sdk/ios/spark_frost.swift:1530-1536 | a sequence is its length in four bytes and then its items in order |
| FfiBytes.BlockReads | packages/spark-sdk/ios/spark_frost.swift:82-111 | for any buffer: too short for the length or for the bytes throws bufferOverflow, a negative length crashes, and otherwise the bytes and the rest are returned |
| FfiBytes.OptionReads | packages/spark-sdk/ios/spark_frost.swift:1491-1499 | for any buffer: nothing throws bufferOverflow, 0 is absent, 1 is present as far as the value can be read, any other byte throws unexpectedOptionalTag |
| FfiBytes.SequenceReads | packages/spark-sdk/ios/spark_frost.swift:1538-1546 | a sequence without room for its length throws, a negative length crashes, and one that stops being readable ends as its first unreadable item does |
| FfiBytes.CommitmentBytes | packages/spark-sdk/ios/spark_frost.swift:1098-1101 | each of the fourteen records is the concatenation of its fields in the order its converter writes them: hiding, binding |
| FfiBytes.NonceBytes | packages/spark-sdk/ios/spark_frost.swift:1159-1162 | hiding, binding |
| FfiBytes.NonceResultBytes | packages/spark-sdk/ios/spark_frost.swift:899-902 | nonce, commitment |
| FfiBytes.KeyPackageBytes | packages/spark-sdk/ios/spark_frost.swift:776-780 | secret key, public key, verifying key |
| FfiBytes.DummyTxBytes | packages/spark-sdk/ios/spark_frost.swift:631-634 | tx, txid as a string |
| FfiBytes.AdaptorSignatureBytes | packages/spark-sdk/ios/spark_frost.swift:570-573 | signature, adaptor private key |
| FfiBytes.HtlcSpendBytes | packages/spark-sdk/ios/spark_frost.swift:706-711 | tx, sighash, script, control block |
| FfiBytes.TimelockBytes | packages/spark-sdk/ios/spark_frost.swift:1211-1224 | next sequence, next direct sequence |
| FfiBytes.SecretShareBytes | packages/spark-sdk/ios/spark_frost.swift:1036-1040 | threshold, index, share |
| FfiBytes.VerifiableSecretShareBytes | packages/spark-sdk/ios/spark_frost.swift:1406-1424 | threshold, index, share, the sequence of proofs |
| FfiBytes.TransactionBytes | packages/spark-sdk/ios/spark_frost.swift:1278-1294 | tx, sighash, the sequence of inputs |
| FfiBytes.TxInBytes | packages/spark-sdk/ios/spark_frost.swift:1335-1346 | the input's sequence number |
| FfiBytes.NodeTxPairBytes | packages/spark-sdk/ios/spark_frost.swift:838-841 | cpfp, direct |
| FfiBytes.RefundTxTrioBytes | packages/spark-sdk/ios/spark_frost.swift:967-971 | cpfp refund, optional direct refund with its tag, direct refund from cpfp |
| FfiRoundTrip.LiftLower | packages/spark-sdk/ios/spark_frost.swift:196-213 | for byte strings, options, sequences and records lift undoes lower; every proper prefix throws bufferOverflow; anything longer throws incompleteData |
| FfiRoundTrip.PrefixOverflows | packages/spark-sdk/ios/spark_frost.swift:82-111 | wherever a buffer is cut, in a length, in a block or between nested values, reading throws bufferOverflow |
| FfiRoundTrip.AcceptedBufferIsLowered | packages/spark-sdk/ios/spark_frost.swift:196-213 | a buffer that lift accepts is the lowered form of its result |
| FfiRoundTrip.RecordBuffersAreCanonical | packages/spark-sdk/ios/spark_frost.swift:957-972 | for each of the fourteen records, a buffer lifts if and only if it is the lowered form of some value |
| FfiRoundTrip.StringLiftLower | packages/spark-sdk/ios/spark_frost.swift:473-497 | a whole string is lowered to its bytes and lifted from any bytes, in both directions without loss; a shorter buffer is a shorter string and not an overflow |
| FfiRoundTrip.BoolLiftLower | packages/spark-sdk/ios/spark_frost.swift:449-467 | lift undoes lower, and lower undoes lift if and only if the byte was 0 or 1 |
| FfiDictionaries.DictionaryRoundTrip | packages/spark-sdk/ios/spark_frost.swift:1677-1724 | for every iteration order a dictionary comes back equal, prefixes overflow and longer buffers are incomplete |
| FfiArguments.DictionaryBytes | packages/spark-sdk/ios/spark_frost.swift:1678-1685 | a dictionary is its size in four bytes and then each key, length-prefixed, with its value, in iteration order |
| FfiArguments.DictionaryKeepsLast | packages/spark-sdk/ios/spark_frost.swift:1687-1697 | whatever pairs a buffer holds, exactly their keys come back, each with the last value given for it |
| FfiArguments.DictionaryReads | packages/spark-sdk/ios/spark_frost.swift:1687-1697 | a dictionary without room for its size throws, one with a negative size crashes |
| FfiArguments.NothingToLift | packages/spark-sdk/ios/spark_frost.swift:196-204 | a buffer without data is the empty string, and crashes for every other kind of value |
| FfiArguments.PlainArguments | packages/spark-sdk/ios/spark_frost.swift:449-497 | a lowered string is its bytes, a lowered boolean 0 or 1, and every number but 0 is true |
| FfiBuffers.Writer.Write | packages/spark-sdk/ios/spark_frost.swift:411-1485 | appends exactly the encoding of the value, whose bytes the FfiBytes rows spell out |
| FfiBuffers.Writer.WriteItems | packages/spark-sdk/ios/spark_frost.swift:1530-1536 | the item loop appends the items' encodings in order |
| FfiBuffers.Writer.WriteDictionary | packages/spark-sdk/ios/spark_frost.swift:1678-1685 | appends the count and the pairs in iteration order |
| FfiBuffers.Reader.ReadInteger | packages/spark-sdk/ios/spark_frost.swift:82-96 | reads at the offset and advances it, or throws without room |
| FfiBuffers.Reader.ReadByteArray | packages/spark-sdk/ios/spark_frost.swift:100-111 | reads so many bytes, throws without room, crashes on a negative count |
| FfiBuffers.Reader.Read | packages/spark-sdk/ios/spark_frost.swift:405-1520 | the value, the error and the new offset are those of the format, which FfiBytes states for any buffer |
| FfiBuffers.Reader.ReadItems | packages/spark-sdk/ios/spark_frost.swift:1538-1546 | the loop reads count items or fails with the first failure |
| FfiBuffers.Reader.ReadDictionary | packages/spark-sdk/ios/spark_frost.swift:1687-1697 | pairs are stored as they come, a repeated key keeps the last value |
| FfiBuffers.LiftBuffer | packages/spark-sdk/ios/spark_frost.swift:196-204 | reads one value and refuses remaining bytes; a buffer without data crashes |
| FfiBuffers.LowerValue | packages/spark-sdk/ios/spark_frost.swift:209-213 | writes one value into a new buffer |
| ProtoWire.VarintRoundTrip | packages/spark-sdk/src/proto/multisig.ts:41-47 | a varint comes back with its suffix untouched |
| WireBytes.VarintBytes | packages/spark-sdk/src/proto/multisig.ts:41-47 | byte i of a varint holds bits 7i to 7i+6, with the high bit set on every byte but the last, which is non-zero unless alone |
| WireBytes.TenBytesAtMost | packages/spark-sdk/src/proto/multisig.ts:63-64 | for any buffer: a varint is read if and only if one of its first ten bytes has a clear high bit; otherwise it is invalid, or premature when the buffer is shorter |
| WireBytes.KeepsLowBits | packages/spark-sdk/src/proto/multisig.ts:63-64 | of a longer number the low 32 bits are kept |
| WireBytes.SkipsByNumber | packages/spark-sdk/src/proto/multisig.ts:84-88 | what each wire type by its number skips, and that 4, 6 and 7 cannot be skipped |
| WireBytes.LoopEndsEarly | packages/spark-sdk/src/proto/multisig.ts:84-88 | a message ends early at a zero tag and at an end-group tag it does not know |
| ProtoWire.SkipsPayload | packages/spark-sdk/src/proto/multisig.ts:84-88 | skipping takes exactly one value of any wire type, groups of any depth included |
| ProtoWire.UnknownIsConsumed | packages/spark-sdk/src/proto/multisig.ts:84-88 | a well-formed field whose number the message does not know changes nothing |
| ProtoWire.LoopReads | packages/spark-sdk/src/proto/multisig.ts:53-90 | the decode loop reads a message's own fields and passes over everything in between, whatever lies beyond its end |
| MultisigProto.NestedIsRead | packages/spark-sdk/src/proto/multisig.ts:228-236 | a submessage, with unknown fields anywhere between its own, is read within its own length and leaves what follows alone |
| MultisigProto.ConfigRoundTrip | packages/spark-sdk/src/proto/multisig.ts:40-92 | decode undoes encode, also with unknown fields inserted between the encoded ones |
| WireBytes.ConfigBytes | packages/spark-sdk/src/proto/multisig.ts:41-52 | the encoding is 8 and the version, 16 and the threshold, each left out when zero, then 26, length and bytes of each key in order |
| WireBytes.SignatureBytes | packages/spark-sdk/src/proto/multisig.ts:135-143 | 10 and the key, 18 and the signature, each left out when empty |
| WireBytes.SetBytes | packages/spark-sdk/src/proto/multisig.ts:211-219 | 10 and the configuration, also when it is empty but not when it is absent, then 18 and each signature in order |
| WireBytes.AuthorityBytes | packages/spark-sdk/src/proto/multisig.ts:291-301 | 10 and the key, or 18 and the configuration, or nothing |
| WireCuts.ConfigFieldsReplace | packages/spark-sdk/src/proto/multisig.ts:54-92 | read after anything, a number replaces the one before and a key is appended |
| WireCuts.SetFieldsReplace | packages/spark-sdk/src/proto/multisig.ts:221-251 | read after anything, a configuration replaces the one before as a whole and a signature is appended |
| WireCuts.AuthorityFieldsReplace | packages/spark-sdk/src/proto/multisig.ts:303-333 | the last arm read wins |
| WireCuts.CutConfigFails | packages/spark-sdk/src/proto/multisig.ts:54-92 | an encoding cut anywhere is refused as premature if and only if the cut is not between two fields |
| WireCuts.CutSignatureFails | packages/spark-sdk/src/proto/multisig.ts:145-175 | the same for a keyed signature |
| WireCuts.CutSetFails | packages/spark-sdk/src/proto/multisig.ts:221-251 | the same for a signature set, where a cut inside a submessage is refused even between two of its fields |
| WireCuts.CutAuthorityFails | packages/spark-sdk/src/proto/multisig.ts:303-333 | every proper part of a signing authority but the empty one is refused |
| WireCuts.NestedEndsEarly | packages/spark-sdk/src/proto/multisig.ts:228-236 | a submessage's length is not checked against the buffer: one reaching beyond it is still read up to an early end |
| MultisigProto.SignatureRoundTrip | packages/spark-sdk/src/proto/multisig.ts:134-175 | the same for a keyed signature |
| MultisigProto.SetRoundTrip | packages/spark-sdk/src/proto/multisig.ts:210-251 | a signature set is read back from any layout of its fields in order, with unknown fields between them and inside the nested configuration and every nested signature: an absent and a default configuration stay different, signatures keep order and number |
| MultisigProto.EncodedSetRoundTrip | packages/spark-sdk/src/proto/multisig.ts:210-251 | decode undoes encode for signature sets |
| MultisigProto.AuthorityRoundTrip | packages/spark-sdk/src/proto/multisig.ts:290-333 | both arms of the signing authority and no arm are read back, with unknown fields around the chosen arm and inside a nested configuration |
| MultisigProto.EncodedAuthorityRoundTrip | packages/spark-sdk/src/proto/multisig.ts:290-333 | decode undoes encode for signing authorities |
| MultisigCodec.EncodeConfigTo | packages/spark-sdk/src/proto/multisig.ts:41-52 | the writer gains exactly the message's encoding |
| MultisigCodec.EncodeSignatureTo | packages/spark-sdk/src/proto/multisig.ts:135-143 | the writer gains exactly the message's encoding |
| MultisigCodec.EncodeSetTo | packages/spark-sdk/src/proto/multisig.ts:211-219 | fork and join frame each submessage by its length, in order |
| MultisigCodec.EncodeAuthorityTo | packages/spark-sdk/src/proto/multisig.ts:291-301 | the chosen arm is written, an absent choice writes nothing |
| MultisigCodec.DecodeConfigFrom | packages/spark-sdk/src/proto/multisig.ts:54-92 | the loop returns the message, position or error of the specified loop |
| MultisigCodec.DecodeSignatureFrom | packages/spark-sdk/src/proto/multisig.ts:145-175 | the same for a keyed signature |
| MultisigCodec.DecodeSetFrom | packages/spark-sdk/src/proto/multisig.ts:221-251 | the same for a signature set, driving the same reader through its submessages |
| MultisigCodec.DecodeAuthorityFrom | packages/spark-sdk/src/proto/multisig.ts:303-333 | the same for a signing authority, the last arm read winning |
| MultisigProto.StepsShrink | packages/spark-sdk/src/proto/multisig.ts:53-90 | no field gives back more buffer than it was given, so every decode loop ends |
| Bolt11Words.FromWordsLenient | packages/spark-sdk/src/services/bolt11-spark.ts:126-142 | the loops with the wrapping accumulator compute the regrouping |
| Bolt11Words.ByteSurvivesWrap | packages/spark-sdk/src/services/bolt11-spark.ts:132-137 | the byte shifted out of the wrapped register is the byte of the exact number |
| Bolt11Words.RegroupedNumber | packages/spark-sdk/src/services/bolt11-spark.ts:126-142 | the result is the number of the words without its spare bits |
| Bolt11Words.RegroupingKeepsBits | packages/spark-sdk/src/services/bolt11-spark.ts:126-142 | bit j of the result is bit j of the words, for every j in the first floor(5n/8) bytes |
| Bolt11Words.RegroupedInvertsSpelling | packages/spark-sdk/src/services/bolt11-spark.ts:120-142 | any words that spell a byte string and then fewer than eight more bits give it back |
| Bolt11Words.RegroupedUndoesPadding | packages/spark-sdk/src/services/bolt11-spark.ts:120-142 | every byte string regrouped into words, with any padding of fewer than eight bits, comes back |

## Left out

- The ChillDKG protocol, elliptic-curve arithmetic, SHA-256, HMAC, ECIES and the FROST library: abstract groups and function parameters stand for them; an honest key generation is a hypothesis.
- Identity and deposit keys, key derivation of other kinds, and signing for keys that are not leaves.
- gRPC, GraphQL, file formats, wallet sessions, console output and balance polling: a file is a value, a network answer an arbitrary input; files are identified by one canonical path each.
- Proposal files edited by hand: runs start without proposals and only the commands write them; group files with a threshold of at least 1 are assumed.
- Renewal, recovery and paging inside the leaf manager: a renewal result is an arbitrary input that keeps leaf ids, and it is assumed to return.
- Map iteration order: available leaves are listed in an arbitrary order, so selections are stated for some listing of the cache.
- Waiting for an optimisation, automatic optimisation, logging and balance notifications.
- The plan of an optimisation and the decision whether to make one: any plan is accepted.
- JavaScript numbers: satoshi values are natural numbers; target amounts given to a swap are integers.
- The swap's transfer and claim calls: one arbitrary answer per batch and its targets, which says whether the transfer was sent; transfer ids are not modelled, and callbacks do not fail.
- LeafExclusion.NoLeafIsHeldTwice: assumes a run of harmless events and answers, which the code does not enforce; LeafExclusion.RunsAreExclusiveExactly says which runs are affected.
- LeafConservation.OwnedFollowsFlow: assumes a swap returns new ids worth what it sent; SwapOutcomes.ReturnIsBalancedExactly says when a request does, given answers worth what they were sent.
- GreedyExactness.NeverMissesOneTargetExactly: speaks of a single target; for several targets over one list only the chain, which is exact over allowed values, is shown to suffice.
- LeafConservation.OwnedIsTheSameAtEveryAwait: leaves syncs, additions, deposits, claims and evictions out of the window; LeafConservation.OwnedFollowsFlow accounts for them.
- UTF-8 validity in both codecs: strings are byte sequences; writing a length of 2^31 or more, which crashes, is excluded.
- The read and write functions of the boolean converter, which nothing calls, and the integers' lift and lower, which are the identity.
- The parent signer's own nonce table: its answer for a commitment that is unknown here is an input.
- The error type of the bindings, whose write drops its message, and floating-point converters, which no record uses.
- Memory reserved by the readers for an announced length before the items are read.
- The protobuf wire library is not part of this model: reading and writing follow the public Protocol Buffers wire format; an end-group tag closes the innermost group whatever its number.
- JSON forms and partial construction of the multisig messages, and the other protobuf files, which repeat the pattern.
- Parsing the rest of an invoice: only the regrouping of words is modelled, for words below 32.
