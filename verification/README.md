# Gate Zero: verified model of the in-memory cores

This project models the in-memory cores of Gate Zero, a command gate for industrial controllers, and
proves what they keep over whole runs. Each structure the C code updates in place is a class whose
methods are tied to a specification on values; the results are lemmas about those specifications.

| file | models |
|---|---|
| `Words.dfy`, `PowersOfTwo.dfy` | fixed-width words, little-endian images, low bits of a counter |
| `MerkleTree.dfy` | the Merkle audit frontier and its root |
| `MultiSenderGate.dfy`, `GateRuns.dfy`, `GateAnswers.dfy` | the multi-sender gate with its nonce window, its runs, and every answer it gives |
| `RingPool.dfy`, `RingInterleaving.dfy` | the message ring, sequentially and as interleaved micro-steps |
| `AuditLog.dfy` | the hash-chained audit log |
| `Wal.dfy` | the wrapping hash-chained write-ahead buffer |
| `Persistence.dfy` | sender state on disk and its recovery scan |
| `ShadowTable.dfy` | the shadow table and its swap-remove eviction |
| `Attribution.dfy` | per-fingerprint scores, tiers and event rings |
| `SenderRecord.dfy` | the sender record shared by the disk and the signed-command gates |
| `CommandGates.dfy`, `CommandRuns.dfy`, `CommandAnswers.dfy` | the strict and the multi-client signed-command gates, their runs and answers |
| `StateEngine.dfy`, `DarkController.dfy` | the controller state machine and its product with the dark controller |
| `Heartbeat.dfy` | heartbeat verification |

Conventions. Hash functions and signature verification are parameters: any total functions, a digest
being 32 bytes. Claims that a hash binds something read "equal, or here are two different inputs
with the same digest". Machine words are bounded integers and wrap-around is written out. Clock
readings and the outcomes of `open` and `write` are inputs. The byte images assume a 64-bit
little-endian target with natural alignment. Bit tests are stated on halves and remainders of the
counter. Every lemma turns automatic induction off, so each induction is in the text.

## What the code does not do

Where the code falls short of what its documentation or its names suggest, the model follows the
code and lemmas give the exact boundary, and what still holds beyond it.

* The Merkle root covers the whole history exactly while it is shorter than 2^depth leaves; at every
  multiple the frontier starts over, and the root is all zeros (`RootCoversHistoryIff`,
  `RootForgetsFirstLeaf`, `RootAfter256Leaves`).
* The write-ahead log's chain covers a record's position and timestamp but not its agent, action or
  result, because the entry hash sits before those fields; it also covers 16 stale bytes of the slot
  (`ChainIsOfTimestamps`, `LatestHashBindsTimestamps`).
* A torn record is never cut off: behind one, the next persist is misread for some contents, and a
  persist is always recoverable exactly when the file length is a multiple of the record size
  (`TornPersistRecoversIff`, `PersistRecoversIff`).
* A root carries neither the number of leaves nor a prefix byte: equal roots bind two histories, up
  to collisions, exactly when their lengths are equal; at other lengths a leaf can be a node image,
  which no leaf is that is not 64 bytes long (`LengthsBindIff`, `RootsCompare`, `RootBindsOddLeaves`).
* Suppression follows the state the last dark tick found, not the current one: an active engine can
  be suppressed and a locked one not suppressed between dark ticks (`AllowedButSuppressedIff`,
  `LockedNotSuppressedIff`, `GapsBetweenDarkTicks`).
* A manual reset cannot leave lockout (`LockoutIsAbsorbing`), and a proxy restore does not clear
  missed heartbeats (`ActiveBoundIff`, `RestoreForgetsNothing`).
* A MISSED heartbeat answer is not final when a later packet announces a long enough interval
  (`MissedIsFinalIff`), a clock reading of 0 passes for "nothing seen yet" (`ReplayRefusedIff`), and
  a packet read just before the last acceptance counts as MISSED (`StepBackIsMissedIff`).
* Sequence, score, clock and age arithmetic wraps; the exact conditions under which it still means
  what it says are `MultiSimulatesStrictIff`, `TierExactIff`, `FutureCheckExactIff`,
  `EvictionTestExactIff`, `FreshnessExactIff` and `GapExactIff`.

## Model

| member | source | states |
|---|---|---|
| MerkleTree.Tree.Init | src/tree.c:4-7 | an empty history with all cells zero satisfies the frontier invariant |
| MerkleTree.Tree.Append | src/tree.c:9-25 | after any history, every set bit below the depth has its cell equal to the recursive tree hash of its aligned block; the leaf joins the history |
| MerkleTree.Tree.GetRoot | src/tree.c:27-46 | the root is the recursive tree hash of the last n mod 2^depth leaves, zeros when there are none |
| MerkleTree.CarryRound | src/tree.c:14-24 | one carry round keeps the carried hash equal to the full subtree ending at the new leaf, or re-establishes the frontier |
| MerkleTree.CarryOut | src/tree.c:14-24 | a carry past every bit stores nothing and the frontier invariant holds with no bit set |
| MerkleTree.FoldBit | src/tree.c:32-44 | folding one bit prepends exactly that bit's block to the leaves covered |
| MerkleTree.SplitPointUnique | src/tree.c:32-44 | joining a full block with a smaller rest is the split of RFC 6962, section 2.1 |
| MerkleTree.SplitPointIsPowerOfTwo | src/tree.c:32-44 | the split of any two or more leaves is at a power of two |
| MerkleTree.CoveredCount | src/tree.c:27-46 | the root covers exactly n mod 2^depth leaves |
| MerkleTree.BlockIsAligned | src/tree.c:15-16 | a set bit's block starts at a multiple of twice its size and the lower blocks follow it |
| PowersOfTwo.WrappedCounterBits | src/tree.c:13-15 | the wrapped 64-bit leaf count shows the bits of the true count |
| MerkleTree.TreeHashBinds | src/tree.c:20-22 | equal tree hashes of equally many leaves mean equal leaves or a collision found by descent |
| MerkleTree.HashOfJoined | src/tree.c:20-22 | 2^i leaves and at most as many to their right hash to the digest of the left digest followed by the right one |
| MerkleTree.RootOfJoined | src/tree.c:27-46 | the root of such a history below 2^depth leaves is the digest of the two parts' roots, the older part first |
| MerkleTree.RootOfOneOrNone | src/tree.c:9-46 | the root of one leaf is the hash of its data; without leaves it is 32 zeros |
| MerkleTree.RootOfRemainder | src/tree.c:27-46 | leaves in front, a multiple of 2^depth of them, do not change the root of the fewer than 2^depth behind them |
| MerkleTree.RootBindsCoveredLeaves | src/tree.c:9-46 | equal roots of equally long histories bind the leaves covered, for every length |
| MerkleTree.RootBindsHistory | src/tree.c:9-46 | below 2^depth leaves equal roots bind the whole history, or yield a collision |
| MerkleTree.RootCoversHistoryIff | src/tree.c:14-17 | the root covers the whole history if and only if it is shorter than 2^depth |
| MerkleTree.RootForgetsFirstLeaf | src/tree.c:14-24 | from 2^depth leaves on, the first leaf does not influence the root |
| MerkleTree.TreeHashesCompare | src/tree.c:20-22 | equal tree hashes of any two sizes: the same leaves, a collision, or a leaf of one tree that is the image of an inner node of the other |
| MerkleTree.RootsCompare | src/tree.c:9-46 | the same for the roots of any two histories of 1 to 2^depth - 1 leaves, by a constructive descent |
| MerkleTree.RootBindsOddLeaves | src/tree.c:9-46 | if no leaf is 64 bytes long, equal roots of histories of any two such lengths mean equal histories or a collision |
| MerkleTree.LengthsBindIff | src/tree.c:9-46 | for any two lengths from 1 to 2^depth - 1 and every hash, equal roots always mean equal histories or a collision if and only if the lengths are equal |
| MerkleTree.Twins | src/tree.c:20-22 | for any two sizes there are leaves with the same tree hash whose comparison meets no collision |
| MerkleTree.LengthMatters | src/tree.c:20-22 | the smallest instance: a one-leaf history shares the root of a two-leaf one |
| MerkleTree.RootAfter256Leaves | src/tree.c:27-46 | at depth 8, 256 leaves give the zero root |
| MultiSenderGate.Gate.Init | gate0_adversarial.c:32 | the zeroed gate |
| MultiSenderGate.Gate.NonceSeen | gate0_adversarial.c:22 | answers membership in the recorded nonces |
| MultiSenderGate.Gate.NonceRecord | gate0_adversarial.c:23 | the window grows to 256 and then drops its oldest nonce, in order |
| MultiSenderGate.Gate.FindSender | gate0_adversarial.c:24 | the first used slot with the id, or none |
| MultiSenderGate.Gate.BootstrapSender | gate0_adversarial.c:25 | fills the first free slot from the command, or changes nothing |
| MultiSenderGate.Gate.GateEvaluate | gate0_adversarial.c:28 | answer and new gate are those of the value-level decision, in place |
| MultiSenderGate.Evaluate | gate0_adversarial.c:28 | any answer but acceptance leaves the gate unchanged |
| GateRuns.RunsAgree | gate0_adversarial.c:22-28 | after every run the slots are the fold of the accepted commands, the window is their last 256 nonces, nonces are fresh and each sender is in order |
| GateRuns.RunDecides | gate0_adversarial.c:26-28 | after every run the answer to any command is a verdict on the accepted commands alone, and acceptance holds if and only if the stated conditions do |
| GateRuns.AcceptMeansAcceptable | gate0_adversarial.c:28 | the verdict is acceptance exactly when the declarative conditions hold |
| GateRuns.AnswersAreJustified | gate0_adversarial.c:26-28 | after every run each refusal code names a cause that really holds of the command and the accepted commands; a sequence replay means the number was accepted before or is 0 |
| GateRuns.SequencesAreConserved | gate0_adversarial.c:23-28 | the slots' sequence numbers sum to the number of acceptances; the nonce count is the smaller of 256 and that |
| GateRuns.NonceWindow | gate0_adversarial.c:22-23 | the window holds the last accepted nonces in order and pairwise distinct; none recurs within 256 acceptances |
| GateRuns.UsedSlotsArePrefix | gate0_adversarial.c:24-25 | used slots form a prefix with distinct sender ids |
| GateRuns.SequencesPerSender | gate0_adversarial.c:28 | a sender's accepted sequences are exactly 1 to current_seq in order, all on the node fixed at enrolment |
| GateRuns.NoPairTwice | gate0_adversarial.c:28 | per sender accepted sequences strictly increase, so no pair is accepted twice |
| GateRuns.ExhaustedSenderIsRefused | gate0_adversarial.c:28 | once a sender has used up all 64-bit sequences, none of its commands is accepted in the rest of the run |
| GateRuns.FutureCheckExactIff | gate0_adversarial.c:28 | when the wrapped clock-skew comparison equals the unbounded one |
| GateAnswers.InterlocksAreLastSet | gate0_adversarial.c:16-17 | after every run the interlock inputs are the ones last set, all clear before the first |
| GateAnswers.RanksAreOrdered | gate0_adversarial.c:28 | the authority comparison orders observer, operator, admin, emergency |
| GateAnswers.ScreeningAnswersIff | gate0_adversarial.c:22-28 | after every run, on the command's fields, the clock, the interlocks last set and the last 256 accepted nonces: exactly when each of the six screening refusals is given |
| GateAnswers.TableAnswersIff | gate0_adversarial.c:24-28 | after every run, exactly when each of the six table refusals, and acceptance, is given, against the sender's accepted commands |
| RingPool.NextSlot | src/mesh_sync.c:27 | the slot after an index is its successor modulo the capacity |
| RingPool.MaskIsNextSlot | src/mesh_sync.c:27-41 | the source's mask on a 32-bit index computes exactly that slot |
| RingPool.Ring.Init | src/mesh_sync.c:21-24 | an empty queue |
| RingPool.Ring.Push | src/mesh_sync.c:26-34 | enqueues at the back if and only if fewer than 1023 messages are queued |
| RingPool.Ring.Pop | src/mesh_sync.c:36-43 | dequeues the front if and only if the queue is not empty; otherwise the caller's message is untouched |
| RingInterleaving.StepKeeps | src/mesh_sync.c:26-43 | every micro-step of either thread keeps the ring invariant, byte by byte |
| RingInterleaving.ExecuteKeeps | src/mesh_sync.c:26-43 | every interleaving from the initial ring satisfies the invariant |
| RingInterleaving.IndexTests | src/mesh_sync.c:28-37 | the full and empty tests on indices are exact tests on occupancy |
| RingInterleaving.Fifo | src/mesh_sync.c:26-43 | popped messages are a prefix of pushed ones and at most 1023 are queued |
| RingInterleaving.NoSlotIsShared | src/mesh_sync.c:31-40 | the slot being written is never the slot being read |
| RingInterleaving.PushRefusedIffFull | src/mesh_sync.c:28-30 | a push is refused exactly when the ring is full as it reads the tail |
| RingInterleaving.PopRefusedIffDrained | src/mesh_sync.c:37-39 | a pop is refused exactly when everything published has been popped |
| RingInterleaving.PushCompletesIff | src/mesh_sync.c:26-34 | whatever both threads do in between, a push that finds room enqueues exactly its message when it publishes, if and only if it has written all its bytes, and nothing before |
| RingInterleaving.PopCompletesIff | src/mesh_sync.c:36-43 | whatever both threads do in between, a pop that finds a message dequeues exactly the oldest when it publishes, if and only if it has read all its bytes |
| AuditLog.Log.LogEvent | src/audit_log.c:25-50 | the chain value and the bytes of the file are those of the events logged so far, however much of each record was written; a failed open changes nothing |
| AuditLog.ChainLinks | src/audit_log.c:38-46 | each record carries its predecessor's event hash, the first zeros, and hashes its own 64-byte image |
| AuditLog.FileIsChainIff | src/audit_log.c:48 | the file holds the whole chain if and only if no record was lost or cut short |
| AuditLog.ImageDeterminesRecord | src/audit_log.c:29-45 | the hashed bytes determine every event field and the previous hash |
| AuditLog.LastHashesCompare | src/audit_log.c:22-48 | equal last hashes of runs of any two lengths mean the same events, an explicit collision, or explicit bytes that hash to the zeros a run starts from |
| AuditLog.LastHashBindsRun | src/audit_log.c:22-48 | equal last hashes of equally long runs mean the same events, or an explicit collision |
| AuditLog.FileRecordBytes | src/audit_log.c:10-48 | record k of a file written whole, byte by byte: the event's fields, bytes 60 to 91 of the record before it (zeros at first), and the hash of its own first 60 bytes and four zeros |
| AuditLog.WriteAddsPrefix | src/audit_log.c:48 | however much of earlier records was written, a write adds the first bytes of its record |
| Wal.Log.Init | src/wal.c:24-29 | clears the buffer, the head and the chain value |
| Wal.Log.Append | src/wal.c:31-50 | the entry joins the entries, and the buffer holds the newest records of their unbounded history |
| Wal.HistoryGrows | src/wal.c:35-48 | appending entries builds the reference history |
| Wal.SlotHoldsNewest | src/wal.c:33-39 | each filled slot holds the record of the largest index congruent to it, past wrap-around too |
| Wal.LiveRecordsLinked | src/wal.c:40-47 | consecutive live records are linked by hash across the seam |
| Wal.HistoryLinks | src/wal.c:35-47 | every record's sequence, fields and predecessor link |
| Wal.EntryHashes | src/wal.c:40-47 | each entry hash is that of the position, the timestamp, the entry hash before it and half of the entry hash 65536 records before (zeros where there is none) |
| Wal.UnreachedSlots | src/wal.c:24-26 | the 65536 slots are zero until an append reaches them |
| Wal.SlotOfHead | src/wal.c:33 | the wrapped head names the slot of the true count |
| Wal.ChainIsOfTimestamps | src/wal.c:44-47 | agents, actions and results never influence the chain |
| Wal.LatestHashesCompare | src/wal.c:44-47 | equal chain values of runs of any two lengths mean as many appends at the same timestamps, an explicit collision, or explicit bytes that hash to zeros |
| Wal.LatestHashBindsTimestamps | src/wal.c:44-47 | the position is hashed, so for equal lengths, or any two from 1 to 2^64, only the first two remain |
| Words.LittleEndianByte | src/persistence.c:21-27 | byte k of a stored word is its k-th digit to the base 256, lowest first |
| Words.ReadBack | src/persistence.c:47 | every byte string is the stored form of the word read from it |
| Persistence.Store.PersistSenderState | src/persistence.c:17-30 | appends as much of the record image as was written; success means all of it |
| Persistence.Store.RecoverSenderState | src/persistence.c:32-51 | the scan returns the sender in the last whole record |
| Persistence.SenderRoundTrip | src/persistence.c:21-47 | the sender read from a record image is the one stored |
| Persistence.RecoverAfterPersists | src/persistence.c:17-51 | after any non-empty list of persists and a torn tail, the last persisted sender is recovered |
| Persistence.FileGrows | src/persistence.c:27 | a complete persist extends the file by its record image |
| Persistence.FileRecordBytes | src/persistence.c:10-27 | record k of a file of complete persists, byte by byte: sequence, length 41, a zero hash, key, last sequence, flag, zeros |
| Persistence.RecoveredBytes | src/persistence.c:32-51 | whatever the file holds, recovery reads key, last sequence and flag from the bytes of its last whole record, and fails if and only if there is none |
| Persistence.TornPersistRecoversIff | src/persistence.c:17-51 | behind any complete persists and a torn one of r bytes, the next persist is recovered for all contents if and only if r is 0 |
| Persistence.PersistRecoversIff | src/persistence.c:17-51 | a persist behind a file is recovered for all contents of that length if and only if the length is a whole number of records |
| ShadowTable.Table.Init | shadow.c:9-12 | an empty table |
| ShadowTable.Table.Register | shadow.c:24-39 | unless 256 are present, appends one active entry with this address and pattern, both times now, one attempt, descriptor -1, and zeros elsewhere |
| ShadowTable.Table.EvictExpired | shadow.c:51-58 | terminates and leaves exactly the multiset of entries not both expired and unreferenced |
| ShadowTable.KeptCounts | shadow.c:53 | an entry loses every copy when its wrapped age exceeds two seconds and its reference count is 0, and otherwise keeps its multiplicity |
| ShadowTable.SwapRemove | shadow.c:54-55 | overwriting with the last entry removes exactly one entry |
| ShadowTable.EvictionIsIdempotent | shadow.c:51-58 | evicting twice at one time equals evicting once |
| ShadowTable.EvictionIgnoresOrder | shadow.c:51-58 | the outcome depends on the entries, not on their places |
| ShadowTable.EvictionTestExactIff | shadow.c:53 | when the wrapped age test equals the true one |
| Attribution.Table.FindOrCreate | attrib.c:7 | finds the known actor, takes the next blank slot, or reports a full table unchanged |
| Attribution.Table.RecordEvent | attrib.c:11 | the whole table is the fold of each known fingerprint's events; an unknown one is ignored when the table is full |
| Attribution.Table.Score | attrib.c:13 | the tier of the fingerprint's events, unknown otherwise |
| Attribution.LogGrows | attrib.c:11 | the log slots hold the last 16 events at their index modulo 16 |
| Attribution.RecordsReflectEvents | attrib.c:7-11 | after any history every field of a record is read off its fingerprint's events: times, count, weighted score, the last 16 events in their slots |
| Attribution.TotalIsWeighted | attrib.c:9 | replays weigh 10, floods 25, sequence violations 15, timing anomalies and others 5 |
| Attribution.TierAfter | attrib.c:11 | after one more event the tier is the class of the wrapped score with thresholds 60, 35 and 15, and below 15 the tier before |
| Attribution.UnknownIsNew | attrib.c:7 | while there is room, an unknown fingerprint has never been reported |
| Attribution.FullTableIsClosed | attrib.c:7 | once 256 fingerprints are known no other is ever admitted |
| Attribution.TierExactIff | attrib.c:11 | the stored tier is the class of the true score sum if and only if the sum fits 32 bits or its wrapped value avoids the two middle classes |
| Attribution.ScoreWrapsToProbing | attrib.c:11 | 858993463 timing anomalies leave the tier at probing though their true sum is in the top class |
| CommandGates.StrictGate.EvaluateCommand | src/core.c:16-30 | answer and sender record are those of the value-level gate |
| CommandGates.MultiGate.EvaluateCommand | src/core_multiclient.c:7-54 | answer and sender table are those of the value-level gate |
| CommandGates.MultiGate.Match | src/core_multiclient.c:13-18 | the first used slot with the key |
| CommandGates.MultiGate.Enrol | src/core_multiclient.c:22-30 | fills the first free slot with the key and sequence 0 |
| CommandAnswers.SlotsHoldPresented | src/core_multiclient.c:12-33 | after every run the used slots hold, in order, the first distinct keys of the requests no interlock stopped, whatever their answers |
| CommandAnswers.MultiAnswersIff | src/core_multiclient.c:8-53 | after every run, exactly when each of the five refusals, and acceptance, is given, on the request's fields, the keys presented and the largest accepted sequence |
| CommandAnswers.MagicBytes | src/core.c:22-23 | a payload carries a key if and only if it starts with the bytes EF BE AD DE |
| CommandAnswers.KeyIsFirstPresented | src/core.c:20-25 | after every run the strict gate's key is the one in the first request with the magic word that no interlock stopped, whatever its answer |
| CommandAnswers.StrictAnswersIff | src/core.c:20-29 | after every run, exactly when each of the five refusals, and acceptance, is given, on the request's fields, the first key presented and the number of accepted commands |
| CommandRuns.MultiRunsKeep | src/core_multiclient.c:12-53 | over every run keys are distinct, each slot's last sequence is the largest accepted for its key, and accepted sequences increase |
| CommandRuns.MultiDecides | src/core_multiclient.c:8-53 | after every run a request is accepted if and only if it is genuine, its key has or can get a slot, and its sequence exceeds all accepted for the key |
| CommandRuns.NoPairAcceptedTwice | src/core_multiclient.c:36-53 | no (key, sequence) pair is accepted twice |
| CommandRuns.SlotsArePermanent | src/core_multiclient.c:12-53 | after any prefix of a run a used slot keeps its key and never loses sequence |
| CommandRuns.RefusalOnlyEnrols | src/core_multiclient.c:20-38 | step: a refusal changes at most one free slot, by enrolling the sender |
| CommandRuns.StrictRunsKeep | src/core.c:21-29 | the k-th accepted command is in time, verified under the enrolled key and numbered k + 1 modulo 2^64 |
| CommandRuns.StrictDecides | src/core.c:20-29 | after every run a request is accepted if and only if it is in time, signed with the enrolled key or the one it enrols, and numbered one past the accepted ones |
| CommandRuns.EnrolledKeyIsFixed | src/core.c:21-25 | once enrolled the strict gate's key never changes |
| CommandRuns.MultiSimulatesStrictIff | src/core.c:16-30 | for every table, replaying the commands a fresh strict gate accepts succeeds if and only if there are none, or the key has or can get a slot at sequence 0 and there are fewer than 2^64; the slot then ends with the strict gate's last sequence |
| CommandRuns.ReadyAfterRunIff | src/core_multiclient.c:12-34 | a table left by a run is ready for a key if and only if it has a slot for it and accepted none of its commands, whether or not refused ones enrolled it |
| CommandRuns.MultiAcceptsStrictIff | src/core_multiclient.c:36-53 | step: the simulation carries over exactly when the last sequence is below the 64-bit maximum |
| StateEngine.Controller.Start | state_engine.c:21-25 | the initial state |
| StateEngine.Controller.Transition | state_engine.c:13-19 | moves, remembers the previous state and counts |
| StateEngine.Controller.Event | state_engine.c:27-61 | the new state for each event, unchanged while locked |
| StateEngine.Controller.Tick | state_engine.c:63-70 | locks a failsafe engine at ten misses |
| StateEngine.Controller.AllowsCommand | state_engine.c:72-74 | commands are allowed exactly in the state the product results speak of |
| DarkController.Controller.Tick | dark_controller.c:35-49 | the new mode for each engine state |
| DarkController.Controller.ShouldSuppress | dark_controller.c:29-33 | suppresses and counts exactly when the mode is not off |
| DarkController.LockoutIffHard | state_engine.c:47-69 | over every run LOCKOUT holds if and only if the hard lock is set |
| DarkController.LockoutIsAbsorbing | state_engine.c:28 | nothing that follows a lockout changes the engine |
| DarkController.ModeFollowsLastSeen | dark_controller.c:35-49 | after every run the mode is the one called for by the state the last dark tick found, passing over INIT |
| DarkController.AllowedButSuppressedIff | dark_controller.c:29-49 | after every run an engine that allows commands is suppressed if and only if that state is DEGRADED or FAILSAFE |
| DarkController.LockedNotSuppressedIff | dark_controller.c:29-39 | after every run a locked engine is not suppressed if and only if that state is INIT or ACTIVE, and the mode is HARD if and only if it is LOCKOUT |
| DarkController.ModeAfterDarkTick | dark_controller.c:35-49 | right after a dark tick the mode matches the state, and an engine that allows commands is not suppressed |
| DarkController.GapsBetweenDarkTicks | dark_controller.c:35-48 | both gaps occur: an active engine still suppressed, and a locked one not suppressed yet |
| DarkController.StateAfterInput | state_engine.c:27-70 | step: for each of the five states, exactly the inputs after which an unlocked engine is in it |
| DarkController.StartIsQuiet | state_engine.c:21-25 | before any input the engine is in INIT since the start and everything else is zero |
| DarkController.TransitionsAreRecorded | state_engine.c:13-70 | after every run, for each input: how many transitions an unlocked engine makes, at which times, and the state it remembers |
| DarkController.TransitionsAreCounted | state_engine.c:13-19 | the transition counter is the transitions of the run modulo 2^32 |
| DarkController.ActivationsAreCounted | dark_controller.c:18-49 | the trigger counter is the activations of the run modulo 2^32, and the activation time is that of the last one, or 0 once it is switched off |
| DarkController.MissesAreCounted | state_engine.c:30-41 | while unlocked the miss counter is the misses since the last heartbeat or reset, modulo 2^32 |
| DarkController.ActiveBoundIff | state_engine.c:30-54 | throughout a run the engine is active only below three misses if and only if every proxy restore in it meets a locked engine or one with fewer than three misses |
| DarkController.ActiveMeansFewMisses | state_engine.c:30-41 | in particular, without a proxy restore the engine is active only below three misses |
| DarkController.OneMoreInput | state_engine.c:51-54 | step: a proxy restore in a run keeps that bound exactly when it is harmless, and no other input breaks it |
| DarkController.RestoreForgetsNothing | state_engine.c:33-54 | the bound fails: after three misses and a proxy restore the engine is active with three misses |
| DarkController.LockedIff | state_engine.c:47-69 | after every run the engine is locked if and only if some input was a critical threat, or a tick that met a FAILSAFE engine with at least ten misses |
| DarkController.LockHasCause | state_engine.c:47-69 | in terms of the inputs alone, a locked engine has seen a critical threat or ten misses in a row |
| DarkController.SuppressedAreCounted | dark_controller.c:29-33 | the suppression counter is the number of suppressed packets modulo 2^64 |
| Heartbeat.Monitor.Verify | src/heartbeat.c:8-27 | answer and state for one packet; a null pointer is answered INVALID and changes nothing |
| Heartbeat.AnswersIff | src/heartbeat.c:12-26 | in a run, exactly when each answer is given, in terms of the packet and the packet last accepted |
| Heartbeat.AcceptedIff | src/heartbeat.c:13-26 | in a run a packet is accepted if and only if it is fresh and, once one was accepted at a positive reading, follows the last accepted one in sequence and, by the wrapped gap, within its miss window; the clock may run either way |
| Heartbeat.SequencesIncrease | src/heartbeat.c:16-24 | while accepted packets are read at positive times, their sequences strictly increase |
| Heartbeat.AcceptancesAreClose | src/heartbeat.c:17-23 | successive acceptances are at most two intervals of the later packet apart, by the wrapped gap and in truth |
| Heartbeat.MissedIsFinalIff | src/heartbeat.c:13-24 | after a MISSED answer nothing is accepted up to a packet if and only if no packet up to it is fresh and follows the last acceptance before the miss within its own window |
| Heartbeat.MissedIsFinal | src/heartbeat.c:19-22 | in particular, while the clock never goes back, no later packet is accepted as long as none announces a longer interval |
| Heartbeat.LongerIntervalResumes | src/heartbeat.c:18-23 | a concrete run in which a longer interval is accepted after a miss |
| Heartbeat.MissCountIsMisses | src/heartbeat.c:20-25 | the miss counter is the misses since the last acceptance, modulo 2^32 |
| Heartbeat.ReplayRefusedIff | src/heartbeat.c:16-23 | the packet a run accepted last is refused when it arrives again at once if and only if the clock does not read 0 |
| Heartbeat.GapExactIff | src/heartbeat.c:17-19 | the wrapped gap test equals the true one if and only if the clock has not stepped back since, or by at least 2^64 less the window |
| Heartbeat.StepBackIsMissedIff | src/heartbeat.c:16-22 | in a run a fresh packet next in sequence but read before the last acceptance is answered MISSED if and only if the step back is less than that |
| Heartbeat.FreshnessExactIff | src/heartbeat.c:13-15 | when the wrapped freshness test equals the true distance in time |

## Left out

- Sockets, daemons, clients, bridges, harnesses, logging and printing: input and output only.
- The internals of BLAKE2b, SHA-256 and Ed25519: parameters here, assumed to read their whole input before writing their output.
- Weak memory and real atomics: the ring is interleaved under sequential consistency; the shadow and attribution tables are sequential.
- `wal_verify_integrity` (src/wal.c:52-69): the code does not make it true after an append, since the hashed prefix includes bytes of the entry hash itself.
- `shadow_lookup` and the decoy and reference-count updates of shadow.c: single-entry writes; the lookup's missing braces make its result ignore the address.
- src/pure_core.c, src/gate0_core.c, src/telemetry.c: easier forms of the multi-sender gate and of the wrapping buffer.
- pending_state.c, mtk.c, rolling_cage.c, phantom.c, consequence_state.c, src/mesh.c, tarpit_sim.c: single-branch code, randomness, or floating-point drift.
- The `GATE0_SIMULATION` build, which clears the interlocks before the strict gate looks at them.
- Numeric result codes and enum values outside their declared constants.
- ShadowTable.Table.EvictExpired: does not state the order of the entries left, which the source does not promise.
- Heartbeat.Skew: signed overflow, undefined in C for readings of 2^63 and above, is modelled as two's complement.
- DarkController.RunOf: runs contain events, ticks, dark ticks and packets, not direct calls of the activation functions.
