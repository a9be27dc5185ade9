# A verified model of the DSM core

DSM keeps each participant's history as a hash chain of states, lets two parties pre-commit to one
of several forks, talks to peers over encrypted sessions, and caches policies, tokens and directory
entries. This project models nine components of it in Dafny and proves what they keep over every
input and every run. `dafny verify dfyconfig.toml` checks all of it.

| modules | component |
|---|---|
| `HashChain`, `ChainTheorems`, `ChainDuplicates`, `ChainErrors`, `TamperEvidence` | the straight hash chain and its jump-and-fill verifier |
| `TeeSampling`, `TeeMarks` | sampled verification of the chain |
| `SessionTables`, `SessionProtocol`, `SessionListing`, `SessionStates` | the four session tables and the concurrent tasks over them |
| `ForkBuffers`, `ForkSelection`, `ForkCreation`, `ForkEffect`, `ForkTheorems`, `ForkAtomicity`, `ForkChecks` | forked pre-commitments and the selection of one fork |
| `BridgeIndex` | the Ethereum bridge's state store and its indexes |
| `PolicyStore`, `PolicyTheorems`, `PolicySize`, `PolicyAnswers` | the content-addressed policy store with its LRU cache |
| `StorageCache`, `CacheTheorems` | the offline cache with expiry and eviction |
| `SecureChannel` | session encryption with counter nonces |
| `Conditions` | the condition language of smart commitments |
| `Tombstones` | tombstone publication and lookup in the directory |
| `Common`, `Text` | bytes, fixed-width integers, hexadecimal, decimal and comma-joined text |

Objects that the source updates in place are classes whose methods are proved against functions on
their abstract value; the theorems are about those functions. Loops of the source are loops here.
BLAKE3, Keccak, ChaCha20-Poly1305 (section 2.8 of RFC 8439), bincode and JSON are uninterpreted
functions passed as parameters. Whatever is needed of them (no collision among the states of the
run, a round trip, no forgery among the packets delivered) is a hypothesis of the theorem that
needs it. Clocks, random ids and transport results are parameters.

## Where the code and its description part

- The stored hash wins in `State::hash` (`dsm/src/types/state_types.rs:461-467`), so a chain never binds
  the contents of genesis by itself: a state of any contents that stores the reported hash passes in
  its place (`GenesisContentsAreFree`). Only states that recompute their hash are bound, up to
  collisions (`RecomputedGenesisIsBound`).
- A state whose number was already seen is not re-linked, so in every history a duplicate with another
  hash makes the sparse walk accept a target to which no chain leads (`DuplicateMisleads`,
  `EveryHistoryCanBeMisled`).
- A sampled state's direct checkpoint is marked as verified although the link below it was not
  checked. A run vouches for a link exactly when its upper number was not marked
  (`VouchesExactlyWhen`); reaching genesis and sampling once more is an error
  (`GenesisCannotBeResampled`).
- A `disconnect` between the last two lock regions of `connect` leaves a removed session recorded as
  active and returned to the caller (`ConnectCanReturnARemovedSession`). That is the only way: the
  returned session is listed exactly when no `disconnect` removed it meanwhile
  (`ReturnedSessionIsListedExactlyWhen`).
- `select_fork` is described as atomic, but a clock error in the middle leaves the mark of the winner
  and the losers reached so far behind, unless all of that was there already
  (`FailureIsAtomicExactlyWhen`).
- `new_with_signatures` writes the digest of the hash followed by "commitment_hash", and `verify`
  expects the digest of the hash alone, so such a commitment never verifies without a collision
  (`WithSignaturesVerifiesExactlyWhen`).
- `new_forked` derives positions from the raw buffer and `verify_fork_selection` from its hash, so a
  fresh fork passes the full check only if the two lists agree (`NewForkPassesExactlyWhen`). With one
  required signature the losers may not count as invalidated (`LosersInvalidatedExactlyWhen`).
- The bridge hashes data and anchor without a delimiter, so an anchorless state can share the id of
  an anchored one and hide it (`SameIdBytesExactlyWhen`, `AliasBreaksTheIndex`).
- `store_policy` neither evicts nor enters the anchor in the access order, so n calls on new anchors
  leave n more entries whatever the limit (`StoresOutgrowTheLimit`), and a cache filled that way takes
  one more from a load too; `StaysWithinExactlyWhen` says when a run keeps the limit. `PolicyFile`
  holds a hash map, so a re-read file may hash differently; transparency rests on the round trip
  (`TransparentExactlyWhen`).
- The two ends of a session share the key, the nonce prefix and the counter range, so their i-th calls
  seal two messages under one key and nonce (`EndsShareNonces`), and an end accepts its own i-th packet
  at its i-th turn (`OpensExactlyAtItsTurn`).
- An `Or` records its latest time lock, which is sufficient but not necessary
  (`OrOpensBeforeItsUnlockTime`); a key listed twice counts twice (`OneSignerMeetsAThreshold`).
- A state id that starts with a tombstone prefix can pose as a tombstone
  (`StateIdForgesATombstone`), and the empty hash matches any tombstone of its type
  (`EmptyHashMatchesAll`). `LookupExactlyWhen` lists all that can answer a query.

## Model

| member | source | states |
|---|---|---|
| `HashChain.LinkMeaning` | dsm/src/api/hashchain_api.rs:29-87 | a link is accepted exactly when numbers are consecutive, the upper state points to the lower one's hash, and the upper state's stored hash is its recomputed one |
| `HashChain.FillLoop` | dsm/src/api/hashchain_api.rs:142-158 | the inner loop computes the recursive gap check, skipping numbers already seen |
| `HashChain.VerifyChainWithSparseIndex` | dsm/src/api/hashchain_api.rs:104-200 | never Ok(false); if equal numbers mean equal hashes, acceptance gives a chain of links from number 0 to the target, whatever the checkpoints and slice order |
| `HashChain.FillIsSound` | dsm/src/api/hashchain_api.rs:142-158 | an accepted gap is a linked segment, also when duplicates were skipped |
| `HashChain.JumpIsSound` | dsm/src/api/hashchain_api.rs:126-180 | an accepted jump to a checkpoint fills the whole gap with links up to the current state |
| `HashChain.WalkIsSound` | dsm/src/api/hashchain_api.rs:104-200 | an accepted walk yields the chain down to genesis |
| `ChainTheorems.WalkIsComplete` | dsm/src/api/hashchain_api.rs:104-200 | a full chain whose jumped gaps are listed upward is always accepted |
| `ChainTheorems.AcceptedExactlyWhen` | dsm/src/api/hashchain_api.rs:104-200 | for distinct numbers: accepted if and only if a chain to the target exists and every jumped gap is listed in ascending order |
| `ChainTheorems.AcceptedGapsAscend` | dsm/src/api/hashchain_api.rs:142-158 | acceptance forces every jumped gap to be listed in ascending order |
| `ChainTheorems.WalkNeverAnswersFalse` | dsm/src/api/hashchain_api.rs:126-200 | the walk ends in Ok(true) or an error, never in Ok(false) |
| `ChainErrors.SparseErrorIsTrue` | dsm/src/api/hashchain_api.rs:104-200 | every error of the walk is true: the slice is empty, the named state below the target is not listed, or known states show the very fault it names |
| `ChainErrors.LinkErrorIsTrue` | dsm/src/api/hashchain_api.rs:29-87 | every error of the link check names a fault that the two states have |
| `ChainErrors.FirstIsFirst` | dsm/src/api/hashchain_api.rs:131-140 | the state found for a number is the first listed one of that number |
| `ChainErrors.PreimageLayout` | dsm/src/types/state_types.rs:470-477 | the hashed bytes are the number in eight little-endian bytes, the previous hash, and the rest |
| `ChainTheorems.SparseRefinesLinear` | dsm/src/api/hashchain_api.rs:29-200 | on a dense sorted slice the jump-and-fill walk accepts exactly what the linear pairwise check accepts |
| `ChainTheorems.CheckpointsDoNotMatter` | dsm/src/api/hashchain_api.rs:126-180 | on a dense sorted slice two assignments of checkpoints give the same verdict |
| `ChainDuplicates.WalkIgnoresHigher` | dsm/src/api/hashchain_api.rs:126-200 | the walk never looks at states numbered as its current one or higher |
| `ChainDuplicates.DuplicateMisleads` | dsm/src/api/hashchain_api.rs:151-158 | in every chain with any duplicate of another hash that is not linked itself, every target on top of the duplicate with a checkpoint below it is accepted and no chain leads to it |
| `ChainDuplicates.EveryHistoryCanBeMisled` | dsm/src/api/hashchain_api.rs:151-158 | such a duplicate and target exist for every digest, every chain and every number in it above 0 |
| `TamperEvidence.DigestsAgreeDownTo` | dsm/src/api/hashchain_api.rs:48-79 | the target's hash fixes the stored hash of every state above genesis |
| `TamperEvidence.AcceptedChainsAgree` | dsm/src/api/hashchain_api.rs:48-79 | without a collision, two chains with one target hash have one length and agree on every hashed field from state 2 up, from state 1 up when the genesis hashes have one length, and down to genesis when its hash is recomputed |
| `TamperEvidence.AcceptedHistoriesAgree` | dsm/src/api/hashchain_api.rs:104-200 | two histories that the sparse walk accepts for one target hash agree in the same sense |
| `TamperEvidence.GenesisSubstitution` | dsm/src/types/state_types.rs:461-467 | replacing genesis goes unnoticed exactly when the replacement reports the same hash |
| `TamperEvidence.GenesisContentsAreFree` | dsm/src/types/state_types.rs:461-467 | for every chain and any contents, the genesis state of those contents that stores the reported hash passes in place of the original |
| `TamperEvidence.RecomputedGenesisIsBound` | dsm/src/types/state_types.rs:461-511 | between genesis states that recompute their hash, a replacement passes exactly when it hashes the same bytes or collides |
| `TeeSampling.SelectTakesTheFirstBytes` | dsm/src/api/hashchain_api.rs:444-458 | a digest that starts with a number in eight little-endian bytes selects that number modulo the bound, whatever follows |
| `TeeSampling.SelectPadsWithZeros` | dsm/src/api/hashchain_api.rs:450-453 | a digest of fewer than eight bytes selects as if zeros followed |
| `TeeSampling.PickExactly` | dsm/src/api/hashchain_api.rs:324-334 | a sample hashes the bytes that decode to the seed, the current number and the sample number, and their digest picks the state |
| `TeeSampling.SeedIsTheConcatenation` | dsm/src/api/hashchain_api.rs:308-313 | the run sees entropy and ephemeral seed only through the digest of their concatenation in that order |
| `TeeSampling.VerifyChainWithTeeSampling` | dsm/src/api/hashchain_api.rs:301-432 | the sampling loop succeeds exactly when the sequence of sample steps does, with the same error |
| `TeeSampling.SampleMovesDown` | dsm/src/api/hashchain_api.rs:324-428 | a successful sample that is not skipped moves to a strictly lower number |
| `TeeSampling.GenesisCannotBeResampled` | dsm/src/api/hashchain_api.rs:324-428 | at genesis a further sample is skipped if 0 is marked and an error otherwise |
| `TeeSampling.RunChecksAllButMarked` | dsm/src/api/hashchain_api.rs:301-432 | a successful run has checked the link of every listed number down to the lowest state reached, except checkpoint-marked ones |
| `TeeSampling.MarksAreDirectPredecessors` | dsm/src/api/hashchain_api.rs:352-369 | without a checkpoint naming a direct predecessor a successful run marks nothing |
| `TeeSampling.RunChecksEveryLink` | dsm/src/api/hashchain_api.rs:301-432 | then every link from the lowest state reached up to the target holds |
| `TeeSampling.MarkedLinkIsMissed` | dsm/src/api/hashchain_api.rs:352-369 | an instance: under every digest whose two picks are 2 and 0, a four-state slice with a broken link into state 1 passes the run |
| `TeeMarks.SampleAfterSwap` | dsm/src/api/hashchain_api.rs:324-428 | a sample that neither picks a number nor checks below it unverified gives the same result for every state of that number with that hash |
| `TeeMarks.MarkedIsNeverChecked` | dsm/src/api/hashchain_api.rs:301-432 | in every successful run, replacing a marked state by any state that reports the same hash changes neither the result nor the marks |
| `TeeMarks.MarkedCanBeForged` | dsm/src/api/hashchain_api.rs:301-432 | for every marked number above 0 some such replacement breaks the link into it, and the run does not notice |
| `TeeMarks.VouchesExactlyWhen` | dsm/src/api/hashchain_api.rs:301-432 | a run that succeeds and goes down past n guarantees the link into n, whatever state of that number and hash the slice holds, exactly when no sampled checkpoint marked n |
| `SessionTables.AddKeepsConsistent` | dsm/src/communication/manager.rs:331-358 | adding a new id keeps the tables consistent and lists exactly one more session |
| `SessionTables.RemoveKeepsConsistent` | dsm/src/communication/manager.rs:360-397 | removing an id keeps the tables consistent and unlists exactly that session |
| `SessionTables.FindByPeerFinds` | dsm/src/communication/manager.rs:305-328 | in consistent tables a listed peer is always found: its first active session in list order, else its first listed one |
| `SessionTables.NetworkManager.AddSession` | dsm/src/communication/manager.rs:331-358 | the new tables, and that consistency is kept for an unused id |
| `SessionTables.NetworkManager.UpdateSessionState` | dsm/src/communication/manager.rs:400-403 | only the state of that id changes |
| `SessionTables.NetworkManager.RemoveSession` | dsm/src/communication/manager.rs:360-397 | fails exactly on an unknown id; otherwise the session is gone and the tables stay consistent |
| `SessionTables.NetworkManager.GetSessionByPeer` | dsm/src/communication/manager.rs:305-328 | the loop finds the first active session, else the first listed one |
| `SessionTables.NetworkManager.Disconnect` | dsm/src/communication/manager.rs:816-851 | undisturbed, it unlists all sessions of the peer and none of anyone else, and errs exactly on an unlisted peer |
| `SessionTables.NetworkManager.GetActiveSessions` | dsm/src/communication/manager.rs:785-814 | reports each active session once with its true peer; the unknown-peer fallback and Establishing entries never appear |
| `SessionProtocol.StepKeepsInv` | dsm/src/communication/manager.rs:296-851 | every enabled step of every task keeps the inductive invariant |
| `SessionProtocol.OneActiveSessionPerPeer` | dsm/src/communication/manager.rs:620-851 | in every interleaving a peer that no accepted connection used has at most one listed active session |
| `SessionProtocol.TablesAlwaysFit` | dsm/src/communication/manager.rs:331-403 | in every interleaving the peer lists are the duplicate-free inverse of the owner map, ids agree, listed ids are Active or Closing, and no task waits on an Establishing session |
| `SessionProtocol.ReuseIsListedAndActive` | dsm/src/communication/manager.rs:629-642 | whenever connect reuses a session it is listed for that peer and active |
| `SessionProtocol.ResultIsASession` | dsm/src/communication/manager.rs:620-752 | in every interleaving whatever connect returned is a session that was added, never a temporary id |
| `SessionProtocol.PeerLockIsExclusive` | dsm/src/communication/manager.rs:296-302 | no two tasks are inside the lock of one peer |
| `SessionProtocol.AcceptMakesASecondActiveSession` | dsm/src/communication/manager.rs:406-440 | accepting a connection for a peer with an active session always makes a second one |
| `SessionProtocol.ConnectCanReturnARemovedSession` | dsm/src/communication/manager.rs:743-752 | a reachable state in which connect returned a session that is unlisted yet recorded active |
| `SessionListing.StepListing` | dsm/src/communication/manager.rs:331-397 | a session once added stays listed through exactly the steps that do not remove it, and is never listed again |
| `SessionListing.ListedUntilRemoved` | dsm/src/communication/manager.rs:331-397 | over every run from a reachable state a listed session is listed at the end exactly when no disconnect removed it |
| `SessionListing.ReturnedSessionIsListedExactlyWhen` | dsm/src/communication/manager.rs:738-752 | in every interleaving the session that connect adds and returns is active, and is listed exactly when no disconnect removed it before connect finished |
| `SessionListing.OnlyALaterDisconnectRemoves` | dsm/src/communication/manager.rs:816-851 | a disconnect that read its list before the session was added does not remove it |
| `SessionListing.ConnectReturnsAListedSession` | dsm/src/communication/manager.rs:620-752 | with no disconnect of the peer called meanwhile, connect returns a listed active session |
| `SessionStates.StateChangesExactlyWhen` | dsm/src/communication/manager.rs:331-403 | the recorded state of a session changes exactly when a disconnect marks it, a disconnect removes it, or its own connect finishes |
| `SessionStates.TemporaryClosesExactlyWhen` | dsm/src/communication/manager.rs:679-733 | a temporary id is closed exactly by its failing attempt, and stays establishing after a success |
| `SessionStates.DisconnectClearsItsList` | dsm/src/communication/manager.rs:816-851 | in every interleaving none of the sessions that a disconnect read is listed once it has finished |
| `ForkBuffers.SortedIsUnique` | dsm/src/commitments/precommit.rs:382-424 | two strictly sorted listings of one set are equal |
| `ForkBuffers.CollectSorted` | dsm/src/commitments/precommit.rs:382-424 | sorting the collected keys gives one result for every iteration order |
| `ForkBuffers.BuildBuffer` | dsm/src/commitments/precommit.rs:716-753 | the buffer of a fork depends only on the base hash, id and parameter contents |
| `ForkBuffers.ForkBytesLength` | dsm/src/commitments/precommit.rs:402-424 | the buffer is as long as base hash, id, all keys and values and all names together |
| `ForkBuffers.ForkBytesDetermine` | dsm/src/commitments/precommit.rs:402-424 | among parts of the same lengths the buffer determines base hash, id, every fixed value and the joined names |
| `ForkSelection.CreateForkPositions` | dsm/src/commitments/precommit.rs:859-876 | the loop produces the specified number of positions, each from the hash and its index |
| `ForkSelection.PreCommitment.AddSignature` | dsm/src/commitments/precommit.rs:469-479 | an existing signature is never replaced |
| `ForkSelection.PreCommitment.VerifyForkSelection` | dsm/src/commitments/precommit.rs:645-707 | accepts exactly by the one-signature shortcut or the full check of matching signers, positions and context hash |
| `ForkChecks.FullCheckExactlyWhen` | dsm/src/commitments/precommit.rs:655-707 | the full check holds exactly when enough signers put the same signature bytes on fork and commitment, positions are those of the fork's hash, and that hash is the digest of its contents |
| `ForkChecks.DisagreementIsRejected` | dsm/src/commitments/precommit.rs:660-677 | signatures whose bytes differ do not count: with too few equal ones the fork does not pass |
| `ForkChecks.PositionAt` | dsm/src/commitments/precommit.rs:866-871 | the i-th position is the first byte of the digest of the hashed hash followed by i |
| `ForkSelection.PreCommitment.SelectFork` | dsm/src/commitments/precommit.rs:578-630 | the new commitment and the outcome of every path, clock failures included |
| `ForkSelection.PreCommitment.IsForkInvalidated` | dsm/src/commitments/precommit.rs:811-844 | true exactly with a proof of enough signatures naming the fork's hash and some fork's hash as winner |
| `ForkChecks.InvalidatedExactlyWhen` | dsm/src/commitments/precommit.rs:811-844 | the first fork of the id decides, by all four tests of its proof |
| `ForkTheorems.SelectEffect` | dsm/src/commitments/precommit.rs:526-630 | what a successful selection does to each fork, repeated ids included |
| `ForkTheorems.SelectionIsFinal` | dsm/src/commitments/precommit.rs:526-630 | with distinct ids: one fork marked, every loser cleared and carrying a proof of both hashes |
| `ForkTheorems.LosersCannotBeSelected` | dsm/src/commitments/precommit.rs:645-658 | in a final commitment selecting another fork fails and changes nothing |
| `ForkTheorems.ReselectionStaysFinal` | dsm/src/commitments/precommit.rs:578-630 | selecting the winner again changes only the losers' proofs |
| `ForkTheorems.EveryRunKeepsFinality` | dsm/src/commitments/precommit.rs:469-630 | after any run of operations the commitment is still final and no other fork can be selected |
| `ForkEffect.InvalidateAllExact` | dsm/src/commitments/precommit.rs:526-630 | the loop over the losers: how it ends and what each fork looks like, also when the clock fails on the way and for repeated ids |
| `ForkAtomicity.OutcomeExactlyWhen` | dsm/src/commitments/precommit.rs:578-630 | each outcome of a selection from the commitment and the clock: it fails on the clock exactly when the fork passes and one of as many readings as there are losers fails |
| `ForkAtomicity.UnchangedExactlyWhen` | dsm/src/commitments/precommit.rs:578-630 | a selection changes nothing exactly when the fork is unknown, does not pass, or is already selected with every loser reached already carrying the proof it would get |
| `ForkAtomicity.FailureIsAtomicExactlyWhen` | dsm/src/commitments/precommit.rs:570-630 | a failed selection changes nothing exactly when it did not fail on the clock, or had nothing to do before the clock failed |
| `ForkTheorems.MatchedSignersInject` | dsm/src/commitments/precommit.rs:660-677 | there are no more matched signers than signatures on the commitment |
| `ForkTheorems.LosersInvalidatedExactlyWhen` | dsm/src/commitments/precommit.rs:811-844 | losers count as invalidated exactly when the commitment has enough signatures, which the full check guarantees |
| `ForkTheorems.WinnerKeepsPassing` | dsm/src/commitments/precommit.rs:469-707 | a passing winner keeps passing under later signatures and re-selections |
| `ForkTheorems.SelectedCommitmentKeepsVerifying` | dsm/src/commitments/precommit.rs:905-945 | after a selection verify accepts, over every later run, exactly the committed state hash, and only if the commitment hash is its digest |
| `ForkTheorems.VerifiesOnlyItsOwnHash` | dsm/src/commitments/precommit.rs:905-945 | over every run verify accepts at most the hash the commitment was made for |
| `ForkChecks.VerifiesExactlyWhen` | dsm/src/commitments/precommit.rs:905-945 | with a selected fork verify needs it to exist, to be marked and to pass now |
| `ForkChecks.RaisedThresholdRejects` | dsm/src/commitments/precommit.rs:1008-1011 | a selection no longer verifies under parameters that ask for more signatures than there are |
| `ForkChecks.NewParamsVerifyExactlyWhen` | dsm/src/commitments/precommit.rs:1008-1011 | under new parameters a final commitment verifies exactly when its winner passes under them |
| `ForkCreation.WithSignaturesVerifiesExactlyWhen` | dsm/src/commitments/precommit.rs:330-350 | a commitment with signatures verifies its own hash only on a digest collision |
| `ForkCreation.AddNames` | dsm/src/commitments/precommit.rs:389-394 | names are listed once, for every iteration order |
| `ForkCreation.NewForked` | dsm/src/commitments/precommit.rs:364-456 | errs exactly without paths; otherwise one unsigned fork per path in order, with the parameters of all paths aggregated |
| `ForkCreation.NewForkIsOpen` | dsm/src/commitments/precommit.rs:427-442 | a new fork carries its path, is unselected and unproven, and cannot pass before it is signed |
| `ForkCreation.NewForkPassesExactlyWhen` | dsm/src/commitments/precommit.rs:427-442 | the context hash of a fresh fork always matches; it passes exactly when signatures and, for the full check, both position lists agree |
| `BridgeIndex.AddingRepresents` | dsm_ethereum_bridge/src/state_management.rs:93-130 | one add turns a store that represents a list of adds into one that represents the longer list, entry by entry |
| `BridgeIndex.BlockQueriesExactWhen` | dsm_ethereum_bridge/src/state_management.rs:166-204 | all block queries return the distinct states added with the block in first-added order if and only if no anchored state was overwritten under its id |
| `BridgeIndex.StatesAtAreDistinct` | dsm_ethereum_bridge/src/state_management.rs:335-345 | the specified answer has no repetitions and exactly the added states of the block |
| `BridgeIndex.StatesAtInFirstAddedOrder` | dsm_ethereum_bridge/src/state_management.rs:335-345 | the states of a block come in the order in which they were added first |
| `BridgeIndex.LastWithTxAt` | dsm_ethereum_bridge/src/state_management.rs:357-364 | the state of a transaction is the most recent one: nothing added later has that transaction |
| `BridgeIndex.SameIdBytesExactlyWhen` | dsm_ethereum_bridge/src/state_management.rs:370-386 | different states hash the same bytes exactly when one is the anchorless alias of the other |
| `BridgeIndex.FaithfulExactlyWhen` | dsm_ethereum_bridge/src/state_management.rs:370-386 | without digest collisions no anchored state is overwritten exactly when no anchorless alias was added after the last add of its anchored state |
| `BridgeIndex.AliasBreaksTheIndex` | dsm_ethereum_bridge/src/state_management.rs:370-386 | adding an alias hides the anchored state from its block query, for every digest |
| `BridgeIndex.CachedAnswerIsStored` | dsm_ethereum_bridge/src/state_management.rs:239-246 | a cached answer is the one the store would give |
| `BridgeIndex.PersistentStateManager.AddState` | dsm_ethereum_bridge/src/state_management.rs:93-130 | appends to the list that the store represents and keeps store and cache in agreement |
| `BridgeIndex.PersistentStateManager.IndexEthereumAnchor` | dsm_ethereum_bridge/src/state_management.rs:313-367 | rewrites the block entry with the key appended once, and the transaction entry |
| `BridgeIndex.PersistentStateManager.GetStateById` | dsm_ethereum_bridge/src/state_management.rs:239-277 | answers as a read of the store alone, and keeps the cache in agreement for the key of an added state and for an absent key |
| `BridgeIndex.PersistentStateManager.DropFromCache` | dsm_ethereum_bridge/src/state_management.rs:239-246 | dropping any cached entries keeps the invariant from which all answers follow |
| `BridgeIndex.PersistentStateManager.LatestState` | dsm_ethereum_bridge/src/state_management.rs:133-163 | the last state added, as in the list manager |
| `BridgeIndex.PersistentStateManager.FindStateByTxHash` | dsm_ethereum_bridge/src/state_management.rs:207-236 | what was last added under the id of the most recently added state of the transaction, which is that state itself when no anchored state was overwritten |
| `BridgeIndex.PersistentStateManager.FindStatesByEthBlock` | dsm_ethereum_bridge/src/state_management.rs:166-204 | the states last added under the ids indexed for the block, which are the distinct states of the block in first-added order when no anchored state was overwritten |
| `PolicyStore.PolicyStore.StoreFile` | dsm/src/cpta/policy_store.rs:102-145 | writes file and cache entry and leaves the access order alone |
| `PolicyStore.PolicyStore.Get` | dsm/src/cpta/policy_store.rs:148-231 | hit, expired hit, every disk error and load, with the resulting cache and order |
| `PolicyStore.PolicyStore.VerifyAndGetPolicy` | dsm/src/cpta/policy_store.rs:234-258 | rejects the zero anchor, stores the given data, then looks up |
| `PolicyStore.PolicyStore.GetCached` | dsm/src/cpta/policy_store.rs:326-354 | a lookup that drops an expired entry and refreshes a live one |
| `PolicyStore.PolicyStore.Cache` | dsm/src/cpta/policy_store.rs:357-385 | evicts the front of the order for a new anchor when full, and moves the anchor to the back |
| `PolicyStore.PolicyStore.Delete` | dsm/src/cpta/policy_store.rs:292-314 | removes the anchor from cache, order and disk |
| `PolicyStore.PolicyStore.EvictExpired` | dsm/src/cpta/policy_store.rs:388-407 | exactly the expired anchors leave the cache and the order |
| `PolicyTheorems.RunKeepsOrderAndSize` | dsm/src/cpta/policy_store.rs:102-407 | every run keeps the order duplicate-free and within the cache, and bounds the size by the limit plus the store calls |
| `PolicyTheorems.CacheStaysBounded` | dsm/src/cpta/policy_store.rs:357-385 | the same from a new store over any directory |
| `PolicySize.StoreSize` | dsm/src/cpta/policy_store.rs:102-145 | storing a writable file whose anchor is not cached makes the cache exactly one larger, whatever the limit |
| `PolicySize.StoresOutgrowTheLimit` | dsm/src/cpta/policy_store.rs:102-145 | n stores of files with different uncached anchors leave exactly n more entries |
| `PolicySize.CallWithinExactlyWhen` | dsm/src/cpta/policy_store.rs:102-385 | which calls take a cache beyond max(1, limit), decided from the state before the call |
| `PolicySize.StaysWithinExactlyWhen` | dsm/src/cpta/policy_store.rs:102-407 | a run stays within max(1, limit) at every moment exactly when no call finds the cache full and stores an uncached policy, or loads one while the access order is empty |
| `PolicySize.RunsWithoutStoreStayWithin` | dsm/src/cpta/policy_store.rs:148-231 | without store calls a new store never exceeds its limit |
| `PolicySize.StoredIsNeverEvicted` | dsm/src/cpta/policy_store.rs:357-385 | an entry that store_policy put and nobody read since stays so through exactly the calls that do not read, delete or sweep it away: it is never evicted |
| `PolicySize.StoredStaysCached` | dsm/src/cpta/policy_store.rs:357-385 | over every run that leaves it alone such an entry stays cached, however full the cache gets |
| `PolicyTheorems.EvictionIsLru` | dsm/src/cpta/policy_store.rs:357-366 | when the order is by access, the evicted entry is a least recently used one |
| `PolicyTheorems.RunsWithoutStoreAreLru` | dsm/src/cpta/policy_store.rs:148-177 | without store calls the order lists exactly the cached anchors by last access |
| `PolicyTheorems.ReturnedPolicyHasItsAnchor` | dsm/src/cpta/policy_store.rs:148-231 | after any run over any disk contents a returned policy has the requested anchor |
| `PolicyAnswers.VerifiedPolicyHasItsAnchor` | dsm/src/cpta/policy_store.rs:234-258 | after any run over any disk contents a verified policy has the requested anchor, whatever data came along |
| `PolicyAnswers.VerifyAnswersExactly` | dsm/src/cpta/policy_store.rs:234-258 | the whole answer: zero anchor, unparsable and unstorable data are refused, otherwise a plain read after the file was written under its own anchor |
| `PolicyAnswers.PeekedPolicyHasItsAnchor` | dsm/src/cpta/policy_store.rs:326-354 | after any run a policy handed out from the cache has the requested anchor |
| `PolicyAnswers.PeekAnswersExactly` | dsm/src/cpta/policy_store.rs:326-354 | the cache answers exactly while the entry is alive, with what the file holds |
| `PolicyAnswers.DeletedIsNotFound` | dsm/src/cpta/policy_store.rs:292-314 | after a delete no lookup finds the policy, and every other one is as before |
| `PolicyAnswers.ReadingDoesNotExtend` | dsm/src/cpta/policy_store.rs:326-354 | a cached policy is handed out up to its time to live after it was added and never later, whatever reads came between |
| `PolicyAnswers.StaleIsReread` | dsm/src/cpta/policy_store.rs:155-163 | get_policy answers an expired entry by reading the file again |
| `PolicyAnswers.LifeStartsNow` | dsm/src/cpta/policy_store.rs:371-377 | a life starts when the policy is loaded or stored |
| `PolicyTheorems.CacheIsTransparent` | dsm/src/cpta/policy_store.rs:102-231 | while only the store writes the disk and files round-trip, a lookup answers as a cacheless read |
| `PolicyTheorems.TransparentExactlyWhen` | dsm/src/cpta/policy_store.rs:102-145 | after a store the cacheless read agrees with the cached one exactly when the file round-trips |
| `StorageCache.StorageCache.FindOldest` | dsm/src/communication/storage_cache.rs:224-254 | the eviction victim is a least recently accessed entry, for every iteration order |
| `StorageCache.StorageCache.CacheToken` | dsm/src/communication/storage_cache.rs:224-254 | makes room by evicting a least recently accessed entry, then writes, or fails with the room made |
| `StorageCache.StorageCache.GetToken` | dsm/src/communication/storage_cache.rs:256-282 | miss, expiry, corruption and hit with the resulting map |
| `StorageCache.StorageCache.GetClosestCheckpoint` | dsm/src/communication/storage_cache.rs:334-376 | the greatest usable checkpoint not above the number, none if there is none, an error exactly on an unserializable live entry |
| `StorageCache.StorageCache.ClearExpired` | dsm/src/communication/storage_cache.rs:484-520 | keeps exactly the live entries of the four maps and counts the rest |
| `StorageCache.Retain` | dsm/src/communication/storage_cache.rs:488-494 | retaining one map keeps exactly its live entries, for every iteration order |
| `CacheTheorems.CacheStaysBounded` | dsm/src/communication/storage_cache.rs:224-254 | the token map never exceeds max(1, limit) entries in any run of puts, gets and sweeps, at any times |
| `CacheTheorems.JustReadSurvives` | dsm/src/communication/storage_cache.rs:223-282 | a token just read that does not expire stays cached through the next limit - 1 calls, whatever else expires |
| `CacheTheorems.FreshPutsEvict` | dsm/src/communication/storage_cache.rs:224-254 | the bound is tight: enough fresh tokens always evict the least recent one |
| `CacheTheorems.NeverAfterItsLife` | dsm/src/communication/storage_cache.rs:64-73 | a token put with a positive lifetime is never returned after it, whatever is read, swept or put under other keys between |
| `CacheTheorems.ReturnedDuringItsLife` | dsm/src/communication/storage_cache.rs:64-73 | up to that time, and always with lifetime 0, it is returned whatever reads and sweeps came between |
| `CacheTheorems.PutIsBornNow` | dsm/src/communication/storage_cache.rs:44-61 | a put leaves the token with the given or default lifetime, born now and intact |
| `CacheTheorems.CorruptIsRefused` | dsm/src/communication/storage_cache.rs:81-92 | a token whose bytes lost their digest is refused and dropped |
| `SecureChannel.NonceInjective` | dsm/src/communication/crypto_net.rs:37-45 | equal nonces come from equal counters |
| `SecureChannel.NonceLayout` | dsm/src/communication/crypto_net.rs:37-45 | the prefix bytes, two zeros, then the counter with its most significant byte first |
| `SecureChannel.NoncesRepeatExactlyWhen` | dsm/src/communication/crypto_net.rs:287-296 | two calls share a nonce exactly when they are a multiple of 2^64 apart |
| `SecureChannel.DecryptUndoesEncrypt` | dsm/src/communication/crypto_net.rs:187-250 | the framing of text and tag round-trips |
| `SecureChannel.EncryptsExactlyWhen` | dsm/src/communication/crypto_net.rs:187-213 | encrypt succeeds exactly with a 32-byte key on which the cipher seals text and associated data, and appends the tag |
| `SecureChannel.DecryptsExactlyWhen` | dsm/src/communication/crypto_net.rs:215-250 | decrypt answers what the cipher opens for that key, nonce, associated data, text and 16-byte tag; shorter packets are errors |
| `SecureChannel.OtherInputsAreRefused` | dsm/src/communication/crypto_net.rs:187-250 | a packet is refused under any other key, nonce or associated data under which the cipher does not open it |
| `SecureChannel.SessionEncryption.Seal` | dsm/src/communication/crypto_net.rs:287-296 | every call, failed or not, uses the counter's nonce and advances it by one |
| `SecureChannel.SessionEncryption.Open` | dsm/src/communication/crypto_net.rs:301-309 | the same for the incoming counter |
| `SecureChannel.SentOpensAtItsTurn` | dsm/src/communication/crypto_net.rs:287-309 | a sender's i-th packet opens at the i-th decrypt call of anyone with the secret, whatever arrived before |
| `SecureChannel.EndsShareNonces` | dsm/src/communication/crypto_net.rs:274-309 | call i of one end and call j of the other share a nonce exactly when i and j are equal modulo 2^64, and then seal their messages under the same key and nonce |
| `SecureChannel.OpensExactlyAtItsTurn` | dsm/src/communication/crypto_net.rs:287-309 | without forgeries the i-th decrypt call succeeds exactly on the peer's i-th packet or the end's own i-th packet, and returns that packet's text |
| `SecureChannel.InOrderDelivery` | dsm/src/communication/crypto_net.rs:287-309 | in-order delivery returns exactly the sent texts |
| `SecureChannel.LossIsPermanent` | dsm/src/communication/crypto_net.rs:301-309 | after one lost packet every later one fails, unless it equals the packet due at that turn or the receiver's own |
| `Conditions.CountValidSignatures` | dsm/src/commitments/smart_commitment.rs:841-855 | counts listed keys with a signature, repetitions included |
| `Conditions.CountIsDistinctExactlyWhen` | dsm/src/commitments/smart_commitment.rs:841-855 | the count is the number of distinct signers exactly when no signed key is listed twice |
| `Conditions.EnoughSignersExactlyWhen` | dsm/src/commitments/smart_commitment.rs:841-855 | without a repeated signed key the condition is met exactly by enough distinct signers |
| `Conditions.OneSignerMeetsAThreshold` | dsm/src/commitments/smart_commitment.rs:841-855 | a key listed n times meets threshold n alone |
| `Conditions.MonotoneInSignatures` | dsm/src/commitments/smart_commitment.rs:802-865 | a met condition stays met when signatures are added, for every tree |
| `Conditions.MonotoneInTime` | dsm/src/commitments/smart_commitment.rs:802-865 | without deadlines a met condition stays met |
| `Conditions.ConstantBetweenNamedTimes` | dsm/src/commitments/smart_commitment.rs:802-865 | for every tree the answer changes only at a time named in it |
| `Conditions.ThresholdsFollowTheValue` | dsm/src/commitments/smart_commitment.rs:812-829 | raising the value keeps lower bounds met and lowering it upper bounds |
| `Conditions.ThresholdsComplement` | dsm/src/commitments/smart_commitment.rs:812-829 | for a bound parameter the operators are complementary pairs, the strict ones exclude each other, and equality is met exactly at the threshold |
| `Conditions.UnboundMeetsNothing` | dsm/src/commitments/smart_commitment.rs:825-828 | a parameter without a value meets no threshold |
| `Conditions.MonotoneInParameter` | dsm/src/commitments/smart_commitment.rs:802-865 | a met tree with only lower bounds on a parameter stays met when it rises |
| `Conditions.ExternalDataExactlyWhen` | dsm/src/commitments/smart_commitment.rs:830-839 | external data is met exactly when the source reports that hash |
| `Conditions.DeadlineComplementsLock` | dsm/src/commitments/smart_commitment.rs:808-810 | a deadline is the complement of the lock at the same time |
| `Conditions.MetExactlyFrom` | dsm/src/commitments/smart_commitment.rs:802-865 | a tree without deadlines is met exactly from one computed moment on (latest over And, earliest over Or) |
| `Conditions.FixedAgreesExactlyWhen` | dsm/src/commitments/smart_commitment.rs:335-371 | evaluate_fixed equals evaluate except for a root time lock in test mode |
| `Conditions.LatestTime` | dsm/src/commitments/smart_commitment.rs:748-757 | the loop finds the largest direct time lock, if there is one |
| `Conditions.TypeInNew` | dsm/src/commitments/smart_commitment.rs:231-288 | time-locked with exactly the latest direct lock, otherwise conditional with its description |
| `Conditions.DescriptionReadsBack` | dsm/src/commitments/smart_commitment.rs:235-262 | the description gives back the time, the parameter and threshold, the source and hash, the count and the first key |
| `Conditions.DetermineCompoundType` | dsm/src/commitments/smart_commitment.rs:731-774 | the same time locks as in new |
| `Conditions.UnlockTimeIsNecessary` | dsm/src/commitments/smart_commitment.rs:731-774 | an And (or single lock) is never met before its unlock time |
| `Conditions.UnlockTimeIsSufficient` | dsm/src/commitments/smart_commitment.rs:731-774 | an Or (or single lock) is always met from its unlock time on |
| `Conditions.UnlockTimeIsExactWhen` | dsm/src/commitments/smart_commitment.rs:731-774 | when the unlock time is both, for trees without deadlines |
| `Conditions.OrOpensBeforeItsUnlockTime` | dsm/src/commitments/smart_commitment.rs:748-757 | an Or of two locks is met from the earlier one although the later one is recorded |
| `Tombstones.TombstoneMatchesExactlyWhen` | dsm/src/communication/directory.rs:811-888 | for hashes of every length: which queries one tombstone answers |
| `Text.HexRoundTrip` | dsm/src/communication/directory.rs:824-832 | the hexadecimal text of a hash reads back as its bytes |
| `Text.DecimalRoundTrip` | dsm/src/communication/directory.rs:824-832 | the decimal text of a timestamp reads back as its number |
| `Tombstones.TombstoneMatchesItsHashOnly` | dsm/src/communication/directory.rs:811-888 | asked for at least 11 bytes, a tombstone for a hash that is not longer answers for its own hash and type only |
| `Tombstones.OtherKeysNeverMatch` | dsm/src/communication/directory.rs:921-926 | invalidation and genesis keys never answer a tombstone query |
| `Tombstones.KeptExactlyWhen` | dsm/src/communication/directory.rs:1185-1206 | a key is in the store exactly when some write of it was not erased since |
| `Tombstones.LookupExactlyWhen` | dsm/src/communication/directory.rs:856-888 | in every run, for every hash and without any condition: the lookup is true exactly when some standing write is a tombstone or state id that answers the query |
| `Tombstones.LookupIsExact` | dsm/src/communication/directory.rs:856-888 | for a long enough hash: true exactly when a tombstone for that hash and type stands or a state id poses as one; only the former when state ids avoid the prefixes |
| `Tombstones.ForwardOnly` | dsm/src/communication/directory.rs:809-888 | without removals a true answer never reverts, and for a long enough hash it is true exactly from the first publication, or posing state id, on |
| `Tombstones.StateIdForgesATombstone` | dsm/src/communication/directory.rs:671-674 | a state id can pose as a tombstone nobody published |
| `Tombstones.EmptyHashMatchesAll` | dsm/src/communication/directory.rs:869-877 | the empty hash is reported once any tombstone of the type exists |
| `Tombstones.DirectoryService.PublishTombstone` | dsm/src/communication/directory.rs:811-853 | writes exactly one entry, or nothing when a clock read fails |
| `Tombstones.DirectoryService.CheckTombstone` | dsm/src/communication/directory.rs:856-888 | the loop answers true exactly when some standing write answers the query, hence for long hashes exactly for standing tombstones and posing state ids |
| `Tombstones.DirectoryService.PublishState` | dsm/src/communication/directory.rs:646-674 | the local entry under the state id, or nothing on an error |
| `Tombstones.DirectoryService.PublishInvalidation` | dsm/src/communication/directory.rs:891-930 | the local entry under the invalidation key, or nothing on an error |
| `Tombstones.DirectoryService.KeepFetched` | dsm/src/communication/directory.rs:786-794 | a remote answer is kept under its own key |
| `Tombstones.DirectoryService.Remove` | dsm/src/communication/directory.rs:1185-1190 | exactly that key leaves the store |
| `Tombstones.DirectoryService.Clear` | dsm/src/communication/directory.rs:1193-1198 | the store becomes empty |

## Left out

- Lock order, deadlock and liveness of the session manager: each lock region is one atomic step, so only safety is claimed. The temporary id that stays Establishing when session creation fails is in the model; the test-only expiry sweep is not.
- File, database and network errors, UTF-8 failures, serialization failures of bridge states and the disabled distributed storage of the bridge; the remote half of every directory method.
- HashChain.VerifyChainWithSparseIndex: the hashed bytes after number and previous hash are one opaque payload, and the successor of the largest state number wraps around instead of panicking.
- TamperEvidence.AcceptedChainsAgree: equality of genesis is on its hashed bytes, and on its fields when both previous hashes have one length, because the fields are concatenated without delimiters.
- SecureChannel.OpensExactlyAtItsTurn: integrity is assumed of the packets that arrive in the run, not derived from a cipher, and the nonce reuse between the two ends weakens what the cipher promises; key agreement and random nonces are not modelled.
- Conditions: recurring commitments, verification positions, `is_executable` and the commitment registry.
- Interleavings inside one call of the bridge, the policy store, the caches and the directory: each method is atomic. In the bridge `add_state` still holds the write guard of the store (`dsm_ethereum_bridge/src/state_management.rs:106`) when `index_ethereum_anchor` waits for it again (line 318), so the bridge results are about calls that return.
- StorageCache.StorageCache.CacheToken: the genesis, checkpoint and invalidation maps have put and get methods of their own with the same steps; only those of tokens and the closest-checkpoint search are modelled.
- Forks: `from_forward_linked_commitment`, signature verification and zeroization. The signatures of a fork are part of its value; the source writes them only through public fields.
- Merkle proofs, comprehensive state verification, deterministic and external commitments, identity and token interfaces: they delegate to code outside the nine components or check one field at a time. Networking, HTTP, SQL and the command line are input and output.
