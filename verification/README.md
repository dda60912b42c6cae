# Verified model of diademchain's consensus, signing, transaction and index core

This project models, in Dafny, the parts of diademchain whose correctness depends on state kept over many
steps, and proves what they guarantee over every run.

* **Function consensus** (`fnConsensus/`). Validators sign the hash of a function's message under a nonce,
  gossip and merge each other's vote sets, detect a two-thirds (or unanimous) majority, choose one submitter
  and move to the next nonce. `VoteSets` holds the values and the acceptance test, `VoteSetObjects` the
  in-place objects, `Majority`, `Thresholds` and `Gossip` what merging, majorities and the two thresholds mean,
  `Protocol` the steps of the reactor, `Reactor` the reactor object, `Persistence` its image on disk, `ReactorRuns`
  the theorems over runs of votes, commits, messages, failed saves and crashes, `Adoption` when a node takes over,
  adds to and passes on what it hears.
* **The HSM validator signer** (`privval/hsm/yubi.go`), in `Signer`.
* **The transaction path**: the call limiter in `OriginLimiter`, the write-back transaction in `CacheStore`,
  transaction processing and sequence numbers in `TxPipeline`.
* **Indexes that must agree with a plain scan**: log queries behind a bloom filter in `LogQuery`, their
  meaning on whole chains in `ChainQueries`, the event store in `EventStore`, the meaning of its answers in
  `EventAnswers`, the theorems over its runs in `EventRuns`, byte order and prefix ranges in `KeyOrder`.

Encoders, hashes, signature checks, the bloom filter library and clocks are not part of the repository's
logic; they appear as function-valued fields of a `Codec` or `Bloom` value, as inputs of a step, or as maps
(block times). What is assumed of them is a named predicate in the theorem that needs it: `Binding` (the
validators' hash determines the validator set), `Injective` and `Faithful` (encoders keep distinct messages
apart and decoding undoes encoding), `Honest` (the HSM's signatures verify), `Sound` (the bloom filter has no
false negatives and is never empty), `WellFormed` (a validator set has a member, positive powers and twice its
total power fits an int64). Key parts are joined by one zero byte, the behaviour assumed of the key-prefix
library, which is not part of this model.

Properties that do not hold of the code as stated, with the exact condition under which they do:

* The reactor's invariant (nonces at least 1 and never decreasing) survives a step if and only if the step does
  not increment a nonce that is already the largest int64 (`StepKeepsInv`, `WrappingLosesNonce`,
  `WrapIsPossible`).
* The agree bits of a majority are its voters if and only if the empty byte string has no majority or nobody
  abstained (`AgreeBitsExact`, `EmptyHashCountsAbsentees`), and they only grow with further votes if and only if
  the absentees they count do not vote otherwise later (`MajorityStable`, `MajoritySurvives`). A node's own hash
  is a SHA-512 sum, so an empty hash has to come from a peer, through a decoder that keeps an empty byte string
  apart from nil; the acceptance test only refuses nil.
* Exactly one of the validators that commit a majority submits it when they commit the same nonce with the same
  agree bits (`OneNodeSubmits`); the same nonce and hash are not enough, because a later vote changes the choice
  (`TwoNodesCanSubmit`).
* A step keeps every vote set in progress valid if and only if it does not add a vote with a missing hash,
  oracle signature or signature (`StepKeepsValid`); a failing signer does so (`IncompleteVoteSpoils`).
* Merging consistent vote sets in two orders gives the same contents if and only if the two first sets carry the
  same signatures beside absent votes, which the acceptance test does not look at (`OrderInsensitive`,
  `LeftoversShow`).
* A saved state reloads unchanged if and only if every vote set is stored under its own function ID
  (`RoundTrip`); every reachable state is like that (`SavedStateReloads`).
* With a working HSM the signer signs anew in the round of its newest release if and only if the request's kind is
  later (`NewestReleaseDecides`), as long as no process died between saving and releasing; then what was recorded
  decides (`SignedExactlyWhen`), and a lost precommit blocks another one (`LostSignatureBlocks`).
* Two successful transactions of one origin share a sequence number if and only if a multiple of 2^64 lies
  between them (`NoReplay`); a checked number that wraps to 0 reads as no number and sends the check back to the
  committed one (`CheckOne`).
* The bloom pre-check is transparent for a block if and only if the block's filter covers the logs listed for it
  (`TransparentExactlyWhen`); committing a block twice breaks this (`SecondCommitHides`).
* Every event of a batch at free coordinates is returned by the block query if and only if no two of them
  collide (`AllReturnedExactlyWhen`), that is, are of one block and a multiple of 65536 positions apart
  (`CollideExactlyWhen`). The contract queries stay parts of the block query if and only if events that collide
  are of one contract (`BatchAgreesExactlyWhen`); a concrete batch breaks both (`CollisionSplitsIndexes`).
* Over every run of the event store the contract queries of a range are parts of the block query if and only if
  no coordinate in the range was ever written for two contracts (`RunQueriesExactlyWhen`), and the block query
  returns everything ever saved there if and only if none was written twice (`RunReturnsAllExactlyWhen`). Batches
  of at most 65536 events, with no block in two of them, guarantee both (`IndexedChainIsExact`).
* An event query returns the events of its height range if and only if the range ends below the largest block
  number or nothing is filed from its start on (`AnswersExactlyWhen`).

## Model

| member | source | states |
|---|---|---|
| VoteSets.MergeKeepsValid | fnConsensus/types.go:820-854 | merging two vote sets valid for one validator set passes the whole acceptance test again: bits in lockstep, signatures over the merged set's own sign bytes, power equal to the sum over voters; differing headers change nothing |
| VoteSets.MergedResponseValid | fnConsensus/types.go:214-239 | merging two valid responses keeps hash, signature and bit present together at every index |
| VoteSets.EntryTransfers | fnConsensus/types.go:638-693 | an entry's signature verifies in any vote set with the same header and entry, because sign bytes read nothing else |
| VoteSets.AddVoteKeepsValid | fnConsensus/types.go:860-899 | AddVote on a valid set succeeds exactly when the nonce matches and the vote is missing, and the result passes the whole acceptance test |
| VoteSets.NewVoteSetValid | fnConsensus/types.go:525-574 | a fresh vote set is built exactly when hash and oracle signature are present, and it is valid |
| VoteSets.AddVote | fnConsensus/types.go:860-899 | success sets exactly the validator's own clear bit; every outcome, failed ones included, keeps all arrays in shape |
| VoteSets.VoteIsRecorded | fnConsensus/types.go:860-899 | an added vote holds exactly the answered hash, oracle signature and signature at its index; nothing else changes but the power |
| VoteSets.FreshVoteIsRecorded | fnConsensus/types.go:525-574 | a fresh set holds exactly that one vote under the given nonce, function, chain and validators |
| VoteSets.SignBytesBind | fnConsensus/types.go:638-665 | sign bytes of votes that differ in one of nonce, chain and address, validators, function or response are equal if and only if that part is encoded equally |
| VoteSets.TamperingIsRefused | fnConsensus/types.go:725-818 | changing chain, function, validators, power, a bit, an address or a signature of an accepted set makes the acceptance test refuse it |
| VoteSets.PartialResponseIsRefused | fnConsensus/types.go:241-271 | so does removing a voter's hash, oracle signature or response bit |
| Majority.MajorityUnique | fnConsensus/types.go:343-395 | at most one hash reaches the threshold |
| Majority.AgreeBitsExact | fnConsensus/types.go:368-373 | the agree bits are exactly the voters of the winning hash if and only if the empty hash has no majority or no entry is nil |
| Majority.EmptyHashCountsAbsentees | fnConsensus/types.go:368-373 | an accepted vote set whose majority lists a validator that never voted |
| Majority.MajorityConverges | fnConsensus/types.go:709-718 | a valid vote set with a majority response has converged |
| Majority.ConvergedWithoutMajority | fnConsensus/types.go:709-718 | the converse fails for an accepted vote set: all power can have voted with no majority hash |
| Majority.MajorityStable | fnConsensus/types.go:343-395 | more votes keep the majority hash and only add to its voters; its agree bits only grow if and only if the empty hash has no majority or every nil entry stays empty |
| Majority.MajoritySurvives | fnConsensus/types.go:820-899 | after any merge or added vote the majority has the same hash, at least the same voters, and at least the same agree bits under exactly that condition |
| Majority.QuorumIntersection | fnConsensus/types.go:343-395 | two valid sets for one function, nonce and validator set with majorities on different hashes, under any two thresholds: validators holding more than a third of the power have verified signatures over two different messages |
| Majority.ConflictingVoteIsDoubleSigned | fnConsensus/types.go:638-693 | a validator recorded with two hashes signed two different byte strings, both verified |
| Majority.ExactlyOneSubmitter | fnConsensus/types.go:174-198 | for every majority and nonce the divisor is positive and exactly one index passes the submitter test, an agreeing one |
| Majority.SubmitterExactlyWhen | fnConsensus/types.go:174-198 | a validator submits if and only if it agrees and the nonce modulo the number of agreeing validators is how many of them come before it |
| Majority.MajResponse | fnConsensus/types.go:343-395 | the majority response exists exactly when some hash reaches the threshold, and carries that hash |
| Thresholds.ConvergedUnderAll | fnConsensus/types.go:709-718 | under the all threshold an accepted set has converged if and only if every validator has voted |
| Thresholds.ConvergedUnderMaj23 | fnConsensus/types.go:709-718 | under the two-thirds threshold an accepted set has converged if and only if its voters hold more than two thirds of the power |
| Thresholds.MajorityUnderAll | fnConsensus/types.go:387-391 | under the all threshold there is a majority if and only if all validators answered with one hash, and it is that hash |
| Thresholds.MajorityUnderMaj23 | fnConsensus/types.go:381-386 | under the two-thirds threshold there is a majority if and only if the validators of one hash hold more than two thirds of the power, and it is that hash |
| Thresholds.MajorityCarries | fnConsensus/types.go:368-379 | the majority carries the recorded oracle signatures of the validators that agree and none for the others |
| VoteSetObjects.FnExecutionResponse.ToMajResponse | fnConsensus/types.go:343-395 | returns a response exactly when some hash reaches the threshold; that hash is the only one, with its agree bits and signatures; panics exactly when a hash, or an entry equal to the leading hash, lies beyond the validators |
| VoteSetObjects.FnExecutionResponse.FindLeader | fnConsensus/types.go:343-366 | the one-pass running maximum finds the hash with the most power, and no hash has more |
| VoteSetObjects.FnExecutionResponse.Winner | fnConsensus/types.go:368-395 | the second pass and threshold test build the declared majority response from the running maximum, or panic |
| VoteSetObjects.FnExecutionResponse.Merge | fnConsensus/types.go:214-239 | the loop takes over exactly the missing entries and reports whether there were any; incomparable responses change nothing |
| VoteSetObjects.FnExecutionResponse.AddSignature | fnConsensus/types.go:331-341 | records one response unless its bit is set |
| VoteSetObjects.FnVoteSet.CheckValid | fnConsensus/types.go:725-818 | the accumulating loop accepts exactly the valid vote sets |
| VoteSetObjects.FnVoteSet.Merge | fnConsensus/types.go:820-854 | the object becomes the join of both sets, or stays unchanged when headers differ; the flag says whether anything was new |
| VoteSetObjects.FnVoteSet.MergeVotes | fnConsensus/types.go:836-851 | the vote loop adds exactly the missing votes, their signatures and their power |
| VoteSetObjects.FnVoteSet.AddVote | fnConsensus/types.go:860-899 | the object after success and after each failure, partial writes included |
| VoteSetObjects.NumberOfBits | fnConsensus/types.go:190-198 | counts the set bits |
| VoteSetObjects.FindAgreeIndex | fnConsensus/types.go:174-188 | position among agreeing validators, -1 for a validator that does not agree |
| Gossip.FoldFacts | fnConsensus/types.go:820-854 | folding Merge over valid sets gives a valid set whose voters are everybody's voters, each entry from some voter |
| Gossip.OrderInsensitive | fnConsensus/types.go:820-854 | any order and repetition gives the same voters and power; consistent sets give the same contents exactly when the first sets' leftover signatures agree |
| Gossip.LeftoversShow | fnConsensus/types.go:777-806 | a signature beside an absent vote is accepted and makes the order of merging visible |
| Persistence.RoundTrip | fnConsensus/types.go:55-123 | flattening in any order and rebuilding restores the state if and only if every vote set is under its own function ID |
| Persistence.Marshal | fnConsensus/types.go:55-92 | the written lists enumerate each map's values once, in some order |
| Persistence.Unmarshal | fnConsensus/types.go:94-123 | the loops rebuild each map by the function ID its values carry |
| Protocol.MajorityCounts | fnConsensus/reactor.go:509-518 | the modulus of the submitter test is never zero |
| Protocol.IndexOf | fnConsensus/reactor.go:212-215 | first validator with the node's address, -1 when there is none |
| Reactor.FnConsensusReactor.constructor | fnConsensus/store.go:7-18 | a started reactor holds the rebuilt saved state, or the empty one |
| Reactor.FnConsensusReactor.Save | fnConsensus/store.go:20-33 | writes a flattening of the state, or nothing when marshalling fails |
| Reactor.FnConsensusReactor.Vote | fnConsensus/reactor.go:385-454 | performs exactly the vote step, overwriting any set in progress; broadcasts only when the save succeeded |
| Reactor.FnConsensusReactor.Commit | fnConsensus/reactor.go:456-532 | performs exactly the commit step: drop, keep or advance |
| Reactor.FnConsensusReactor.CommitInMemory | fnConsensus/reactor.go:460-527 | the state and the outcome of a commit before its save: drop, keep or advance |
| Reactor.FnConsensusReactor.SubmitsNow | fnConsensus/reactor.go:508-520 | true exactly for the chosen submitter |
| Reactor.FnConsensusReactor.FindSigners | fnConsensus/reactor.go:612-625 | the current validator set if it accepts the message, else the previous one if that does |
| Reactor.FnConsensusReactor.HandleMaj23 | fnConsensus/reactor.go:598-678 | performs exactly the majority-message step; passes the message on only when the save succeeded |
| Reactor.FnConsensusReactor.CompareVoteSets | fnConsensus/reactor.go:534-583 | the branches, vote counts and majority tie-break decide exactly the order of trust, index panics included; AdoptsExactlyWhen, ReplacesExactlyWhen and MergesExactlyWhen say what follows |
| Reactor.FnConsensusReactor.CompareMajorities | fnConsensus/reactor.go:571-595 | replaces only for a majority the current set lacks or one with more agreeing votes; stops exactly when computing a majority panics |
| Reactor.FnConsensusReactor.AbsorbRemote | fnConsensus/reactor.go:703-746 | creates the nonce entry, then merges, replaces or keeps |
| Reactor.FnConsensusReactor.HandleVoteSet | fnConsensus/reactor.go:680-803 | performs exactly the vote-set-message step, of which Adoption states the outcome, and saves nothing |
| ReactorRuns.RunInvariant | fnConsensus/reactor.go:416-440 | at every point of every run, in memory and on disk: each current set is under its own ID with the effective nonce, nonces are at least 1, previous majorities have smaller nonces and were accepted and converged |
| ReactorRuns.StepKeepsInv | fnConsensus/reactor.go:466-531 | a step keeps the invariant if and only if it does not increment the largest int64 |
| ReactorRuns.WrapIsPossible | fnConsensus/reactor.go:650-656 | on every chain, any accepted majority message with the largest nonce does, and breaks the invariant of an idle node |
| ReactorRuns.WrappingLosesNonce | fnConsensus/reactor.go:522-526 | such a step takes the nonce to the smallest int64 |
| ReactorRuns.FreshVoteSetLonely | fnConsensus/reactor.go:419-440 | a set installed by vote has one vote and has not converged for any validator set it can be valid for |
| ReactorRuns.CommitMovesNonce | fnConsensus/reactor.go:469-526 | a converging commit finds exactly the committed set's nonce stored and moves it to the next, although an absent entry reads as 0 |
| ReactorRuns.LifetimeNonces | fnConsensus/reactor.go:627-660 | between two points of a run without a restart no nonce decreases |
| ReactorRuns.NonceNeverDecreases | fnConsensus/reactor.go:703-738 | no single step lowers any function's nonce |
| ReactorRuns.SavedStateReloads | fnConsensus/types.go:55-123 | every state with the invariant survives save and load |
| ReactorRuns.CrossNodeSafety | fnConsensus/reactor.go:522-526 | any two nodes of one chain, with their own addresses, registries and thresholds: if their recorded majorities differ for one function, nonce and validator set, validators with more than a third of the power signed two different messages |
| ReactorRuns.OneNodeSubmits | fnConsensus/reactor.go:508-520 | of all validators that commit one nonce with the same agree bits exactly one submits, whatever else their vote sets and states hold; a node that is not a validator never does |
| ReactorRuns.TwoNodesCanSubmit | fnConsensus/reactor.go:508-520 | two accepted vote sets with the same nonce and majority hash that make two validators submit |
| ReactorRuns.StepKeepsValid | fnConsensus/reactor.go:472-480 | under one validator set and a key whose signatures verify a step keeps every set in progress valid if and only if it adds no incomplete vote; a commit then removes a set exactly when it has converged |
| ReactorRuns.IncompleteVoteSpoils | fnConsensus/types.go:860-899 | adding a vote with a missing hash, oracle signature or signature, as after a signer failure, makes any valid set fail the acceptance test |
| ReactorRuns.RunKeepsValid | fnConsensus/reactor.go:472-480 | over every run of such steps, restarts and failed saves included, every set in progress is valid in memory and on disk |
| ReactorRuns.AddVoteKeepsShape | fnConsensus/types.go:860-899 | even a failed AddVote keeps header and shape and leaves no vote without its response |
| ReactorRuns.MajMessageOnce | fnConsensus/reactor.go:636-677 | an accepted majority at least one below the nonce leaves a recorded majority and a larger nonce; the same message again changes nothing and is not passed on |
| ReactorRuns.TrustIsAsymmetric | fnConsensus/reactor.go:534-596 | no two vote sets are each preferred to the other; a converged set is replaced only by a converged one with at least as many votes |
| ReactorRuns.RebroadcastProgress | fnConsensus/reactor.go:700-803 | a message that causes a rebroadcast increases (nonce, set present, votes); no message decreases it |
| ReactorRuns.GossipTerminates | fnConsensus/reactor.go:785-802 | with n validators at most n + 1 rebroadcasts of a function per nonce, whatever is said about other functions in between |
| Adoption.AdoptsExactlyWhen | fnConsensus/reactor.go:534-538 | a node without a set takes over an accepted one, with its own vote added, and passes it on, if and only if the nonce is its own, or later and the set has converged |
| Adoption.ReplacesExactlyWhen | fnConsensus/reactor.go:540-595 | a set of another nonce is replaced if and only if the remote nonce is later and the remote set has converged while ours has not, or has more votes, or as many and more agreeing ones; otherwise ours is kept |
| Adoption.MergesExactlyWhen | fnConsensus/reactor.go:717-729 | a set of the same nonce and header afterwards holds the votes of both and ours; it is passed on if and only if a vote was new |
| Adoption.HeardVotesAreHeld | fnConsensus/reactor.go:680-803 | after any accepted messages of its nonce, in any order, a node holds every vote of every one of them |
| Adoption.ContributeBroadcasts | fnConsensus/reactor.go:748-802 | the set is passed on exactly when our vote was missing and could be added, or was there and the set changed; our vote is what we answered |
| Adoption.VoteOutcome | fnConsensus/reactor.go:385-454 | a complete signed answer installs a fresh set of the current nonce with exactly our vote, saved and broadcast; a sole majority is submitted instead; otherwise nothing happens |
| Adoption.CommitOutcome | fnConsensus/reactor.go:469-531 | a set the validators do not accept is dropped, one that has not converged stays and the previous majority is sent again, a converged one is recorded with these validators and its nonce passed |
| Adoption.LateMajorityIsAccepted | fnConsensus/reactor.go:612-625 | after a commit a majority message signed by its validators is accepted although the validator set has changed |
| Adoption.MajorityOutcome | fnConsensus/reactor.go:598-678 | a majority message is passed on, and moves the node to the next nonce, if and only if it is accepted and not behind; one exactly behind fills a missing record |
| Adoption.FailedSave | fnConsensus/reactor.go:442-452 | a failed save writes nothing, keeps the state in memory and suppresses what is sent after it |
| Signer.CheckHRS | privval/hsm/yubi.go:271-296 | newer exactly in lexicographic order; same point only with both sign bytes and signature remembered |
| Signer.YubiHsmPV.SignMessage | privval/hsm/yubi.go:313-386 | memory, file and released message for each outcome; recorded before released |
| Signer.YubiHsmPV.SaveSigned | privval/hsm/yubi.go:299-308 | memory and file hold what is about to be released |
| Signer.YubiHsmPV.Load | privval/hsm/yubi.go:121-148 | a loaded signer remembers what the file says |
| Signer.ReuseMatches | privval/hsm/yubi.go:327-337 | a reused signature is over the message as released after its timestamp is rewritten |
| Signer.NoDoubleSign | privval/hsm/yubi.go:271-386 | over all runs with HSM failures, crashes and reloads every released signature verifies over its released message, releases never go back in height, round and kind (proposal, prevote, precommit), and equal points carry the same signature over the same bytes |
| Signer.AnsweredExactlyWhen | privval/hsm/yubi.go:313-430 | a request is signed exactly when it comes after the last recorded message by height, round and kind and the HSM works, answered again exactly when it repeats the remembered message up to its timestamp; decoding never panics |
| Signer.SignedExactlyWhen | privval/hsm/yubi.go:271-386 | after any run a fresh signature is given if and only if the HSM works and the message comes after the last one recorded |
| Signer.NewestReleaseDecides | privval/hsm/yubi.go:53-63 | in the round of the newest release exactly the later kinds are signed: a vote after the proposal, a precommit after the prevote |
| Signer.LostSignatureBlocks | privval/hsm/yubi.go:299-308 | a precommit recorded and lost in a crash makes the signer refuse another one of the round |
| Signer.StepsFollowKinds | privval/hsm/yubi.go:53-63 | the numbered steps are in the order proposal, prevote, precommit |
| OriginLimiter.OriginValidator.ValidateCaller | throttle/handler.go:118-132 | the nested search rejects exactly when the ring holds the origin with another nonce; otherwise records in the block's slot |
| OriginLimiter.OriginValidator.Reset | throttle/handler.go:134-137 | the block's slot is replaced by one empty call |
| OriginLimiter.SlidingWindow | throttle/handler.go:118-137 | over every run two accepted calls of an origin fewer than period blocks apart have one nonce, and a call is rejected exactly when another nonce was accepted in the last period blocks |
| CacheStore.CacheTx.Put | store/store.go:112-115 | appends to the log and the cache |
| CacheStore.CacheTx.Remove | store/store.go:107-110 | appends a deletion to the log and the cache |
| CacheStore.CacheTx.Read | store/store.go:130-136 | cached value, else the underlying one |
| CacheStore.CacheTx.Contains | store/store.go:122-128 | cached presence, else the underlying one |
| CacheStore.CacheTx.Flush | store/store.go:138-148 | replays the log in order on the underlying store, keeping cache and log |
| CacheStore.CacheTx.Discard | store/store.go:150-153 | forgets log and cache |
| CacheStore.ReadsSeeView | store/store.go:122-136 | reads equal the base data with the ordered logs applied, through any nesting |
| CacheStore.ReadAfterWrite | store/store.go:107-136 | after a write, at any depth, a set key reads as its value, a deleted key as absent, every other key as before |
| CacheStore.CommitLeaves | store/store.go:138-148 | commit leaves each key as the last action on it says and untouched keys as they were |
| CacheStore.CommitPublishes | store/store.go:138-148 | commit makes the underlying store equal the transaction's view on every key; a second commit changes nothing |
| CacheStore.RollbackRestores | store/store.go:150-153 | rollback before commit shows the base, after commit the committed view |
| CacheStore.NestedCommit | store/store.go:155-161 | inner then outer commit leaves both logs applied in order; outer rollback leaves the base untouched |
| TxPipeline.Application.Nonce | auth/auth.go:102-141 | writes the next number, empties the cache at a new height and accepts exactly the expected number |
| TxPipeline.Application.ProcessTx | app.go:549-603 | performs exactly the processing step: commit, roll back or drop |
| TxPipeline.DeliverOne | app.go:549-603 | success exactly with the next number and a successful handler, moving only that origin's number; failures and checks leave the store unchanged |
| TxPipeline.DeliveredWrites | app.go:549-603 | a successful delivery leaves each other key as the handler's last action on it says, and unchanged if it names none |
| TxPipeline.RunPublishes | app.go:549-603 | over every run the store holds, besides the numbers, exactly what the last actions of all successful deliveries in order leave |
| TxPipeline.NoReplay | sequence.go:16-41 | over every run an origin's successful transactions carry consecutive numbers from stored+1, every one of them, and two repeat a number if and only if they are a multiple of 2^64 apart |
| TxPipeline.CheckOne | auth/auth.go:126-155 | a check moves only its own origin's expected number, by one, or back to the one after the committed number at 2^64 |
| TxPipeline.ChecksAcceptConsecutive | auth/auth.go:126-155 | checks at one height accept exactly a consecutive run per origin, restarting after the committed number at 2^64, and never touch the store |
| TxPipeline.FirstExpected | auth/auth.go:113-133 | in a new block, or after a delivery, that run starts after the committed number |
| KeyOrder.PrefixRangeEnd | store/iavlstore.go:59-78 | the trimming loop terminates and yields the range end, none for all-0xFF prefixes |
| KeyOrder.PrefixIsRange | store/iavlstore.go:59-78 | a key starts with the prefix exactly when it is not before it and before the computed end |
| KeyOrder.PrefixScan | store/iavlstore.go:80-102 | a range scan returns exactly the keys with the prefix, ascending |
| KeyOrder.EncodeOrder | store/eventstore.go:164-174 | byte order of big-endian encodings is numeric order |
| KeyOrder.EncodeRoundTrip | store/eventstore.go:164-181 | decoding undoes encoding |
| EventStore.KVEventStore.GetContractID | store/eventstore.go:120-138 | returns the name's ID, allocating the next one for a new name and changing nothing else |
| EventStore.KVEventStore.SaveEvent | store/eventstore.go:51-59 | both keys are written, replacing what they held, under whatever ID is given; nothing else changes |
| EventStore.KVEventStore.BatchSaveEvents | store/eventstore.go:61-84 | every batch: IDs for its names in order, then its events filed in order in both indexes, later ones replacing earlier ones |
| EventStore.KVEventStore.FilterEvents | store/eventstore.go:86-118 | returns exactly the events in the height range, of the contract if one is named, in (height, index) order; nothing when the range ends at the largest block |
| EventStore.KVEventStore.Query | store/eventstore.go:86-118 | a scan between the bound keys of one key family returns the decoded events in the range in order, or nothing when the end height wraps |
| EventAnswers.BatchIsAdded | store/eventstore.go:61-84 | exactly the coordinates of the batch's events are added and every other one keeps its event |
| EventStore.CollideExactlyWhen | store/eventstore.go:78-80 | two events of a batch share a coordinate if and only if they are of one block and a multiple of 65536 positions apart |
| EventAnswers.LastEventWins | store/eventstore.go:61-84 | at each coordinate of a batch the last event sent there is the one kept |
| EventAnswers.NothingLostExactlyWhen | store/eventstore.go:61-84 | a batch at free coordinates adds as many events as it has if and only if no two collide |
| EventAnswers.AllReturnedExactlyWhen | store/eventstore.go:61-118 | after such a batch the block query returns all its events besides the earlier ones if and only if no two collide |
| EventAnswers.BatchRoundTrip | store/eventstore.go:61-118 | a batch of at most 65536 events of a new block comes back from the query of that block exactly as saved, in order |
| EventAnswers.BatchContracts | store/eventstore.go:71-80 | the contract index keeps an entry for every event, holding the last event of that contract there |
| EventAnswers.PutKeepsAgreement | store/eventstore.go:51-59 | saving an event keeps the two indexes in agreement if and only if it is saved under its contract's ID and its coordinate is free or held by its own contract |
| EventAnswers.BatchAgreesExactlyWhen | store/eventstore.go:61-84 | saving a batch at free coordinates, IDs included, keeps the indexes in agreement if and only if events that collide are of one contract |
| EventAnswers.CollisionSplitsIndexes | store/eventstore.go:78-80 | a concrete batch whose first event is lost from the block query and still returned by its contract query |
| EventStore.IdsStable | store/eventstore.go:120-138 | IDs never change and distinct names have distinct IDs |
| EventStore.TailInRange | store/eventstore.go:89-105 | both kinds of range bound select exactly the heights in the range |
| EventStore.BoundKeys | store/eventstore.go:140-154 | the program's bound keys are a key family's prefix, a height and one of two suffixes |
| EventStore.ScanLists | store/eventstore.go:86-118 | an ordered scan of one key family yields the coordinates in the range in order |
| EventAnswers.ContractIsSubsequence | store/eventstore.go:86-118 | where the indexes agree a contract query is the contract's subsequence of the block query; RunAgreesExactlyWhen says when they agree |
| EventStore.WrappedScanIsEmpty | store/eventstore.go:89-105 | with the largest block number the end key wraps and the scan is empty, for the block and the contract query alike |
| EventAnswers.AnswersExactlyWhen | store/eventstore.go:86-118 | what a query returns is the answer if and only if the range ends below the largest block number or nothing is filed from its start on |
| EventRuns.RunTracks | store/eventstore.go:51-84 | at every point of every run each index holds exactly the newest write at each coordinate, and the state is well formed |
| EventRuns.AgreeExactlyWhen | store/eventstore.go:51-84 | after any writes, under any IDs, the indexes agree at a coordinate if and only if all writes there used the ID of the contract whose event is newest |
| EventRuns.RunAgreesExactlyWhen | store/eventstore.go:51-138 | at every point of every run the indexes agree if and only if no coordinate was ever written for two contracts |
| EventRuns.RunQueriesExactlyWhen | store/eventstore.go:86-118 | at every point of every run all contract queries of a range are their contracts' parts of the block query if and only if no coordinate in the range was ever written for two contracts, or the range ends at the largest block |
| EventRuns.RunReturnsAllExactlyWhen | store/eventstore.go:51-118 | the block query of a range returns as many events as were ever saved there, and so all of them, if and only if no coordinate in the range was written twice |
| EventRuns.BlockByBlock | store/eventstore.go:61-84 | batches of at most 65536 events with no block in two of them never write a coordinate twice |
| EventRuns.IndexedChainIsExact | events/db_indexer.go:40-49 | under such batches every query at every point of the run is exact |
| EventRuns.FoundByName | store/eventstore.go:66-72 | an event is returned by the query for its plugin name, or for its address if it has none, and a query for a name returns only its events |
| LogQuery.GenFilter | eth/bloom/bloom.go:17-34 | the filter is generated from every topic and address of the events |
| LogQuery.MatchEthFilter | eth/utils/utils.go:98-132 | the loops decide exactly the declared meaning of a filter |
| LogQuery.MatchBloomFilter | eth/query/eth.go:174-204 | the loops decide exactly whether the filter bits allow a match |
| LogQuery.StateDBReceipts.CommitBlock | receipts/chain/chain.go:74-102 | stores receipts with a hash, appends their hashes, replaces the block's filter |
| LogQuery.GetTxHashLogs | eth/query/eth.go:135-172 | the matching logs of one receipt in order, with all their fields, or an error exactly when its block cannot be read |
| LogQuery.GetBlockLogs | eth/query/eth.go:84-114 | pre-check, then the scan of the listed receipts with its errors |
| LogQuery.GetBlockLogRange | eth/query/eth.go:62-82 | the blocks' answers in order; an error for a reversed range or a failed block |
| LogQuery.ScanExactly | eth/query/eth.go:98-110 | when the reads succeed the scan returns exactly the entries of the matching logs of the listed receipts |
| LogQuery.TransparentExactlyWhen | eth/query/eth.go:84-114 | the pre-check changes no query's answer if and only if the filter covers the block's logs |
| LogQuery.CommitKeepsCovered | receipts/chain/chain.go:74-102 | committing a new block with its own hashes keeps every block covered |
| LogQuery.QueriesAreExact | eth/query/eth.go:84-114 | on every chain of blocks committed once each query answers what the plain scan answers |
| LogQuery.SecondCommitHides | receipts/common/common.go:31-55 | committing a block again hides logs the new filter does not cover |
| ChainQueries.OnceExactlyWhen | receipts/chain/chain.go:74-102 | blocks are committed once each with their own receipts if and only if no height with receipts and no transaction repeats |
| ChainQueries.ChainHolds | receipts/chain/chain.go:74-102 | after any such chain every block has its transactions listed in order and, for each, the last receipt of its hash stored |
| ChainQueries.BlockQueryIsExact | eth/query/eth.go:84-114 | on any such chain a block query returns one entry for each matching log of each transaction of the block, by transaction, then by log, and nothing else |
| ChainQueries.BlockEntryExactlyWhen | eth/query/eth.go:84-172 | an entry is in the answer if and only if it reports a matching log of a receipt of the block, field by field |
| ChainQueries.UnusedHeightIsEmpty | eth/query/eth.go:84-114 | a height without receipts has an empty answer |
| ChainQueries.RangeEntryExactlyWhen | eth/query/eth.go:62-82 | a range query returns exactly the entries of the matching logs of the blocks in the range |
| ChainQueries.RangesFollow | eth/query/eth.go:62-82 | the answer of a range is the answer of its first part followed by that of the rest |
| ChainQueries.AlternativesUnite | eth/utils/utils.go:98-132 | several addresses, or several topics at one position, match what any one of them matches; no restriction matches everything |
| ChainQueries.OwnFilterExactlyWhen | eth/utils/utils.go:98-132 | the filter of a log's own address and topics matches exactly the logs of that address whose topics start with them |

## Left out

- Nil pointers in decoded vote sets (missing payload, bit array or response): rejected by the acceptance test or a nil dereference before it; nil entries inside the arrays are modelled.
- Aliasing of vote set pointers: the reactor's maps hold values, each operation works on an object made from one.
- Index panics: a handler that stops at an index out of range (a vote set for more validators than the current set has, or our index beyond an older vote set) ends with the state it had; recovery of the connection is not modelled.
- Which peers a broadcast reaches (all, or all but the sender): a step says only whether it broadcasts.
- Timers, goroutine scheduling, peers, logging and sleeps of the reactor, and the function registry's locking.
- Undecodable messages: ignored by the program before any state is read.
- Signer: Reset and key generation; a failed file write counts as a crash before the save.
- OriginLimiter: decoding of the transaction and the deployer list; heights are non-negative and period is at least 1, as the program divides by it.
- CacheStore: Range, which reads the underlying store and ignores pending writes; prefix wrappers.
- TxPipeline: receipts, events and the other middlewares, which enter as the handler's outcome; handlers do not write sequence numbers.
- EventStore: marshalling errors; fewer than 2^64 contract IDs.
- EventRuns.RunAgreesExactlyWhen: for SaveEvent called with the ID that GetContractID gives for the event's contract; AgreeExactlyWhen and PutKeepsAgreement cover every other ID.
- EventRuns.RunQueriesExactlyWhen: likewise.
- LogQuery: pending-block queries, codecs of stored receipts; GetBlockLogRange with the largest uint64 as its end does not terminate in the program.
- Block caches, RPC, EVM, plugins, gateway, configuration and command line: plumbing around other libraries.
