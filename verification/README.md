# Myrmic: a verified model of its replication, transactions, mailboxes and supervision

Myrmic runs cells on a mesh of nodes. Nodes keep the data of a scope in replicas that catch up with each
other, hand it on when they drain, talk to it through batched transactions, and watch over one another's
lives. This project models those protocols in Dafny and proves what they promise. `dafny verify
dfyconfig.toml` checks all of it.

## What is modelled

- **Replication** (`SyncPoints`, `Fingerprint`, `Catchup`, `Convergence`, `Pull`, `Handoff`, `Exchange`,
  `Offload`).
  A scope's history is a set of sync points `(ts, epoch, node)`, of which the frontier keeps the newest
  writer of every version. An announce lists the frontier in full, or leaves out everything at or below a
  baseline and sends an XOR fold of it instead. From the announce a receiver plans what to ask for, and a
  holder serves it in one go or page by page. A drain hands its holdings to a full replica and retires once
  coverage is confirmed. `Exchange` composes the methods into whole exchanges between two tables; `Offload`
  puts all of it into one state machine, with steps in any order and messages that stay around forever.
- **Batched transactions** (`Transactions`, `Applications`). A client buffers operations and sends them in
  round trips that may be refused, lost on either leg, held up, or dropped. The record of calls is a ledger
  with a meaning of its own, and the client is proved against it.
- **Mailboxes** (`Dispatching`, `Mailbox`). Reads remove nothing, so a reader withholds
  what it handed out or saw consumed, and walks past it window by window.
- **Spawn references** (`SpawnRefs`, `SpawnPatch`, `Rescan`). Compiled classes carry slots for the hash of the classes
  they spawn; patching fills them in dependency order while hashes still move.
- **Supervision** (`Fencing`, `Leases`). Verdicts and staleness are proved against the history of what was
  read, not against the counters that stand for it.
- **Names, keys and edits** (`Text`, `Generations`, `Selectors`, `Custody`, `NodeTags`).

Objects whose methods update their fields are classes, loops are methods with invariants, and expressions
are functions. Where a promise is about a whole run, the class carries a ghost history which every method
extends; `Valid()` ties the fields to that history, and the promise is a lemma about histories.

Hash functions (the head digest, SHA-256, the rendezvous hash, name-based UUIDs), UTF-8 and row decoders,
and what an operation does to the data are arbitrary functions passed in. Clocks, network outcomes, the
registry and the store's choices are parameters, so every statement holds for all of them.

## Findings

- *Two writers of one version at one epoch never converge.* After a full exchange both nodes agree on every
  version's epoch, but each keeps its own node id for a tied version and neither asks for the other's. Their
  frontiers become equal exactly when no version ties (`FullExchangeConverges`); `TieStaysApart` gives two
  stores that are caught up with each other's full announce and diverge on every floored one that elides
  the version.
- *A selector survives print then parse exactly when it is well-formed* (`RoundTripsIff`): the type also
  admits an empty application name and segments that are empty or hold a slash. Parsing never yields those
  (`ParsedWellFormed`).
- *`parse_generation_key` reads more than is printed.* Upper-case digits, a leading plus sign and the other
  UUID text forms are accepted, so two keys can name one generation (`PlusKeyParses`); `newest` then keeps
  the first listed (`IsNewest`). A key that parses is the one its generation prints as exactly when its stem
  is hyphenated lower-case text and its 48 digits are lower-case (`PrintsBackIff`).
- *One application is not always all-or-nothing*, although its documentation says so: `apply_and_commit` ends
  one transaction and the next operation starts another. After apply-and-commit, defer, roll back, the first
  operation is durable and the second is lost (`ReuseTears`). All-or-nothing holds, whatever an unanswered
  commit did, exactly when no operation is accepted after a commit of an earlier one (`AllOrNothingIff`).
- *An Ok rollback does not mean that nothing was committed.* A poisoned application rolls back without asking
  anybody, so a bundle whose commit was never answered may be durable already, or become durable when the
  request gets through (`OkRollbackOfDurable`). With no commit in doubt, what is durable is what was reported
  committed, through everything that may still happen (`Linger`); a caller can tell, since then the failed
  call was not a committing one that came back unreachable. With one in doubt nobody can: the same record
  goes with either outcome (`EitherOutcome`).
- *A patched class need not scan as it did before.* A stray magic number ahead of a real reference may read its
  length and name out of the reference's slot, and a hash can make them plausible (`HashTurnsDecoy`). From the
  class as built: it scans alike whatever the hashes exactly when no filling of its slots makes plausible what
  the scan passes over (`FillingsAgreeIff`), as when no slot reaches there (`ClearRescans`). Of a finished
  deploy: exactly when nothing passed over has become plausible (`RescanIff`).

## Model

| member | source | states |
|---|---|---|
| SyncPoints.FrontierOf | swarm/db/src/domain.rs:78 | the frontier of a set of points: one head per version, the greatest by epoch and then node, drawn from the set |
| SyncPoints.FrontierUnique | swarm/db/src/store/fjall/tx.rs:797-836 | only one frontier summarises a set of points |
| SyncPoints.CollectLatestHeads | swarm/db/src/store/fjall/tx.rs:797-836 | a scan of the ordered keys from the newest down yields exactly one entry per version, its greatest, newest version first |
| SyncPoints.HeadsSummarise | swarm/db/src/store/fjall/tx.rs:797-836 | the scanned heads, as a map, are the frontier of the stored set |
| SyncPoints.ScanFrontier | swarm/db/src/replication.rs:428-478 | the scan computes the frontier of the stored set |
| Fingerprint.XorCommutes | swarm/db-commons/src/models/replication.rs:82-98 | mixing heads by XOR does not depend on their order |
| Fingerprint.FoldExtend | swarm/db-commons/src/models/replication.rs:82-98 | folding a set with one more head is one more XOR, whatever order the rest came in |
| Fingerprint.FoldDrop | swarm/db-commons/src/models/replication.rs:82-98 | taking a head out XORs its digest once more |
| Fingerprint.OneHeadTells | swarm/db-commons/src/models/replication.rs:82-98 | frontiers that differ in one head fold alike iff the two heads digest alike |
| Catchup.BuildAnnounce | swarm/db/src/replication.rs:497-541 | the announce is the frontier in full, or split at the newest head capped by the lag into a fold of everything elided and the rest explicit |
| Catchup.FoldHeadsAtCut | swarm/db/src/replication.rs:1305-1315 | the loop returns the fold of exactly the heads whose version and epoch lie at or below the cut |
| Catchup.PlanCatchup | swarm/db/src/replication.rs:1331-1383 | the plan is Diverged iff the folds differ, else CaughtUp iff every announced head is covered, else a cursor at the end of the intact prefix with a floor for every held version above it or spiking below it |
| Convergence.RequestExactness | swarm/db/src/replication.rs:1331-1383 | for any two frontiers and any cut, with faithful folds: Diverged iff the elided sets differ, CaughtUp iff nothing is lacking, and otherwise the request skips a head iff it is already held at the same or a newer epoch |
| Convergence.HeadAsked | swarm/db/src/replication.rs:1177-1183 | heads left out of the announce are covered, and heads of the sender's whole frontier are skipped iff covered |
| Convergence.NothingWasted | swarm/db/src/replication.rs:1177-1183 | older points of a covered version are skipped as well |
| Convergence.AnswerMerges | swarm/db/src/replication.rs:1139-1217 | adding the served points to the receiver's store merges the two frontiers |
| Convergence.MergeJoins | swarm/db/src/replication.rs:1331-1383 | the merge's version-to-epoch map is the pointwise maximum, and covers both sides |
| Convergence.OneExchangeConverges | swarm/db/src/replication.rs:1331-1383 | one exchange gives the pointwise maximum, leaves the elided set alone, and replanning against the same announce is CaughtUp |
| Convergence.MergeAlgebra | swarm/db/src/replication.rs:1331-1383 | merging commutes on epochs always, and on whole frontiers iff no version ties |
| Convergence.FullExchangeConverges | swarm/db/src/replication.rs:1331-1383 | after full announces both ways, one after the other, epochs are equal; frontiers are equal iff no version ties |
| Convergence.CrossedExchangeConverges | swarm/db/src/replication.rs:1331-1383 | the same when the two announces cross |
| Convergence.TieStaysApart | swarm/db/src/replication.rs:1331-1383 | two stores with a tied version: both caught up on full announces, different frontiers, Diverged on every floored announce eliding it |
| Pull.HandleChangeSetReq | swarm/db/src/replication.rs:1139-1217 | the one-shot answer, in key order: every row the request does not exclude has a chunk with its point, its marker and its changes, a deletion without data, and every chunk stands for such a row; nothing outside the subject |
| Pull.ServePull | swarm/db/src/replication.rs:947-1023 | a page is all that remains, or a proper non-empty part of it that reached the budget with its last chunk and not before, with the cursor to resume at; its chunks stand for exactly the wanted rows past its own cursor up to that one, data and all |
| Pull.ResumeExact | swarm/db/src/replication.rs:997-1003 | following a page's cursor serves exactly what the page left out |
| Pull.PullFrom | swarm/db/src/replication.rs:765-887 | the pages applied are always a prefix of the one-shot answer, and stand for exactly the wanted rows up to the last of them; the pull is complete unless the page behind those applied was lost or refused, and which of the two is what it returns; only a complete pull is vouched for: in full iff it brought in history a lagged announce would elide, else floored iff it took several pages, else not yet |
| Pull.ServedIds | swarm/db/src/replication.rs:1173-1200 | a point is served iff it is a row of the table that the request does not exclude |
| Pull.ServedInOrder | swarm/db/src/replication.rs:1173-1200 | chunks come in strictly ascending key order, so none repeats |
| Pull.ServedAnswers | swarm/db/src/replication.rs:1139-1217 | the whole answer stands for exactly the wanted rows, with their markers and changes |
| Pull.PrefixAnswers | swarm/db/src/replication.rs:947-1023 | the beginning of an answer stands for exactly the wanted rows between the cursor and its last chunk, with their markers and changes |
| Pull.PageGrows | swarm/db/src/replication.rs:36-52 | one more chunk weighs its keys and values, 16 bytes an entry and 80 more, in a word that saturates |
| Handoff.HandoffMerges | swarm/db/src/replication.rs:618-642 | pulling with the whole frontier as floors merges the drain's frontier into the receiver's, whatever the two held |
| Handoff.HandoffComplete | swarm/db/src/replication.rs:618-642 | afterwards the receiver dominates the drain at every version, and a second pull brings nothing |
| Handoff.ServedSet | swarm/db/src/replication.rs:1139-1217 | the chunks served are, as a set, the wanted points that the set-level results speak of |
| Handoff.VerifyCoverage | swarm/db/src/replication.rs:1100-1137 | true iff the scope is in the subject and every head of the page is held at its epoch or a newer one |
| Handoff.ConfirmCoveredBy | swarm/db/src/replication.rs:893-941 | whatever the page boundaries, an answer is true iff the target's frontier covers ours and its subject has the scope or nothing is held; there is no answer only if the page asked for next could not be reached |
| Handoff.HeldIffCovered | swarm/db/src/replication.rs:1100-1137 | holding every scanned head at its epoch or a newer one is covering the whole frontier |
| Handoff.HandleAnnounce | swarm/db/src/replication.rs:597-700 | whatever the sender is, a request that goes out asks for exactly the heads lacking or older; a diverging drain is pulled from directly where the transport can, with the whole frontier as floors, and any other diverging sender is probed; nothing is done iff every announced head is covered, and a replica we are behind is asked, a drain pulled from |
| Handoff.LatestIsFrontier | swarm/db/src/replication.rs:703-760 | covering every scanned head is covering the whole frontier, and the scanned heads are the frontier's points |
| Handoff.Offloader.HandleCoverage | swarm/db/src/replication.rs:703-760 | retires iff a vouched full replica lists every head at the same or a newer epoch, and records exactly the heads it held |
| Handoff.Offloader.TakeConfirmedCoverage | swarm/db/src/replication.rs:301-306 | hands the recorded coverage over once |
| Exchange.CatchUp | swarm/db/src/replication.rs:1331-1383 | scan, announce, plan, request and answer put together: unless the plan diverges, the receiver's table ends as the merge of both and would ask that announce for nothing more |
| Exchange.HandOver | swarm/db/src/replication.rs:618-642 | scan, paged pull, and confirmation put together: after a complete pull the receiver covers the drain, a second pull is empty, and the drain's check answers true unless a page of it cannot be asked |
| Exchange.KeysAscend | swarm/db/src/replication.rs:428-478 | the keys of an ordered table are ascending and are its set of points |
| Exchange.MachineServes | swarm/db/src/replication.rs:1139-1217 | what the machine serves is the set of points a holder answers with |
| Exchange.MachineHeads | swarm/db/src/replication.rs:703-760 | the coverage the machine records, and what its check asks about, are the heads the drain's scan yields |
| Exchange.MachineVerifies | swarm/db/src/replication.rs:1100-1137 | a page of the machine's check goes through iff the target's verification says yes |
| Exchange.MachineAnnounces | swarm/db/src/replication.rs:497-541 | an announce of the machine, of a drain or a replica, is one to plan on: whoever takes in what its plan asks for covers the sender, unless the plan diverges |
| Offload.StepKeeps | swarm/swarm/src/plugins/db.rs:842-1020 | every step of the machine, escalation to a replica among them, keeps: announces and confirmations are about points really held, both coverage records are backed by a replica, and no committed version is lost |
| Offload.NoCommitIsLost | swarm/db/src/replication.rs:703-760 | over every run, whatever was committed is held by some node at its epoch or a newer one at every later time |
| Offload.ReleaseIsSafe | swarm/swarm/src/plugins/db.rs:994-1017 | over every run, each point a drain releases, confirmed by its own check or else by an announce, is held by a full replica at its epoch or a newer one, then and ever after |
| Offload.LateWriteStays | swarm/swarm/src/plugins/db.rs:1123-1136 | over every run, a write stays where it landed until holdings pinned down after it have been confirmed, or the drain has become a replica |
| Offload.ReleasedWasRechecked | swarm/swarm/src/plugins/db.rs:1123-1136 | over every run, a drain that releases a write scanned its holdings after it and handled a covering announce, or began a check after it and had that confirmed, before the release |
| Offload.OwnCheckDecides | swarm/swarm/src/plugins/db.rs:1008-1015 | over every run, once its own check has confirmed anything, a drain releases only heads that check began with, whatever announces follow |
| Offload.DrainCanRetire | swarm/swarm/src/plugins/db.rs:842-1020 | from any state there are steps of one drain and one replica after which the replica holds every version the drain held and the drain is rid of its heads, by its own check or by an announce |
| Offload.ReplicaCanCatchUp | swarm/db/src/replication.rs:765-887 | from any state a serve and its application lead to where one replica covers another |
| Offload.AnyDivisionStarts | swarm/swarm/src/plugins/db.rs:842-1020 | runs may start from any division of the committed points among replicas and drains |
| Transactions.BatchesRefine | swarm/db-commons/src/models.rs:1388-1408 | however operations are cut into batches: the run fails iff sending every operation by itself fails, ends with the same data, and every batch carries its last operation's own answer |
| Transactions.AnswerAt | swarm/db-commons/src/models.rs:1447-1449 | by index: the answer of a batch is the per-operation response at the batch's last position |
| Transactions.ReplaySplit | swarm/swarm/src/plugins/db/handler.rs:441-458 | going on from what a transaction sees is replaying everything from its snapshot |
| Transactions.AcceptedOnce | swarm/db-client/src/application.rs:1-12 | over every run the committed bundles, end to end, and what is still open are exactly the accepted operations in program order; after a failure the committed ones are a prefix |
| Transactions.AnswersTrue | swarm/db-client/src/application.rs:184-231 | every answer in the record is what its operation gives after all accepted before it in its transaction |
| Transactions.OneSnapshot | swarm/db-client/src/application.rs:56-71 | calls of one transaction, its commit included, name one snapshot |
| Transactions.CommitsTrue | swarm/db-client/src/application.rs:220-247 | all that a commit reports ran on the snapshot it names |
| Transactions.DeadIsLast | swarm/db-client/src/application.rs:66-70 | a failure or rollback is the last thing an application reports |
| Transactions.AllOrNothingIff | swarm/db-client/src/application.rs:1-12 | over every run, what is durable is always all or none of what the application accepted iff it accepted nothing after committing something |
| Transactions.ReuseTears | swarm/db-client/src/application.rs:220-231 | apply-and-commit, defer, roll back leaves the first operation durable and the second lost |
| Transactions.ReusedIn | swarm/db-client/src/application.rs:220-231 | a reused application accepted an operation, committed, and accepted another |
| Transactions.ReusedFrom | swarm/db-client/src/application.rs:220-231 | and one that did so is reused |
| Transactions.LiveHasNoDoubt | swarm/db-client/src/application.rs:66-70 | an application no call of which has failed has no commit in doubt |
| Applications.ApplyAll | swarm/swarm/src/plugins/db/handler.rs:441-458 | the loop fails iff replaying the operations on what the transaction sees fails, and otherwise gives the replayed state and the last answer; the same from the snapshot |
| Applications.Server.Handle | swarm/swarm/src/plugins/db/handler.rs:198-438 | a new transaction runs on the snapshot given and nothing else, a named one on what it sees: answered iff admitted or found, every operation succeeds and the commit goes through, with the last operation's answer; an answered request committed the whole bundle or left it open; a refused one commits nothing, rolls back what it named and touches nothing else |
| Applications.Server.HandleRollback | swarm/swarm/src/plugins/db/handler.rs:176-196 | the named transaction is gone, and the reply says whether it was there |
| Applications.Server.Send | swarm/db-client/src/application.rs:314-321 | what is durable afterwards: one bundle more iff a committing request reached the node and was granted; a request held up stays so |
| Applications.RequestCarries | swarm/db-client/src/application.rs:295-309 | the request of a flush completes the bundle to exactly the operations accepted since the last commit, on the same snapshot |
| Applications.SuccessKeeps | swarm/db-client/src/application.rs:331-335 | after an answered flush the record is truthful and the node holds what the ledger says |
| Applications.FailureKeeps | swarm/db-client/src/application.rs:323-329 | after a failed flush what is durable is what was reported committed, or that and the one bundle in doubt, now and after a late delivery |
| Applications.Application.DeferOp | swarm/db-client/src/application.rs:172-181 | records the operation in program order, or refuses when poisoned |
| Applications.Application.Flush | swarm/db-client/src/application.rs:290-335 | keeps the invariant: poisoned means empty buffer and no transaction, durable bundles are those reported plus at most the one in doubt; says how the call ends, on which snapshot it ran, what it answered, what it made durable and what it left in doubt; a poisoned application changes nothing anywhere |
| Applications.Application.NameTx | swarm/db-client/src/application.rs:134-149 | opens a transaction on the snapshot given, with everything deferred applied, and commits nothing |
| Applications.Application.ApplyOp | swarm/db-client/src/application.rs:199-209 | returns what the operation gives after everything accepted before it, on the open transaction's snapshot or the new one, and commits nothing |
| Applications.Application.ApplyAndCommit | swarm/db-client/src/application.rs:220-231 | the same answer; everything accepted and this operation become durable as one bundle iff the request reaches the node and is granted; success leaves the application empty, an unreachable call leaves the bundle in doubt |
| Applications.Application.Commit | swarm/db-client/src/application.rs:234-247 | exactly what was accepted since the last commit becomes durable iff the request reaches the node and is granted, and an Ok means that it did; unreachable leaves that one bundle in doubt |
| Applications.Application.Rollback | swarm/db-client/src/application.rs:251-278 | this call makes nothing durable; what is durable is what was reported committed whenever no commit is in doubt, as it is when no call had failed before |
| Applications.Application.Linger | swarm/db-client/src/application.rs:251-278 | whatever the network and the node still do afterwards adds at most the bundle in doubt, and nothing when there is none |
| Applications.OkRollbackOfDurable | swarm/db-client/src/application.rs:251-257 | an Ok rollback after an unanswered committing call, with the bundle durable before or after it |
| Applications.EitherOutcome | swarm/db-client/src/application.rs:323-329 | of any live application whose committing flush would be granted: with the reply lost the bundle is durable, with the request lost it is not, and the caller's record is the same |
| Applications.Application.Deliver | swarm/db-client/src/application.rs:280-289 | a request delivered late commits exactly the bundle in doubt if it is a committing one and is granted, else nothing |
| Applications.Application.Expire | swarm/swarm/src/plugins/db/handler.rs:336-344 | the node may drop an idle transaction at any time without harm to the invariant |
| Dispatching.NoEarlyRedelivery | swarm/cell-mailbox/src/command.rs:142-189 | over every run, two hand-outs of an id less than the timeout apart have between them a retry of it, or a consumption whose tombstone was evicted while at least CONSUMED_CAPACITY other ids had tombstones no older than its own |
| Dispatching.QueueCrowds | swarm/cell-mailbox/src/command.rs:176-189 | the number behind an evicted tombstone is a number of other ids, all dead and for no longer |
| Dispatching.QuietIsEligible | swarm/cell-mailbox/src/command.rs:176-189 | after a prune, an id nothing was said about for both timeouts is not withheld |
| Dispatching.WithheldIff | swarm/cell-mailbox/src/command.rs:142-150 | by the history: an id is withheld iff it was consumed and not let go since, or was handed out less than 30 seconds ago |
| Dispatching.Dispatched.Dispatch | swarm/cell-mailbox/src/command.rs:152-154 | an id not withheld goes out, on the record |
| Dispatching.Dispatched.Settle | swarm/cell-mailbox/src/command.rs:156-173 | a settlement ends the hand-out, a consumption leaves one tombstone per id, and the book stays consistent: queue ids are the set, without repeats, in time order, apart from what is out |
| Dispatching.Dispatched.Prune | swarm/cell-mailbox/src/command.rs:176-189 | leaves a suffix of the queue within age and capacity, records every tombstone let go with the number behind it, drops abandoned hand-outs, and withholds nothing that is not recent |
| Mailbox.EligibleMeans | swarm/cell-mailbox/src/command.rs:345-395 | an id is eligible iff a decodable row carries it and it is not withheld |
| Mailbox.EligibleAscends | swarm/cell-mailbox/src/command.rs:345-395 | a batch holds every id once, in table order |
| Mailbox.WalkReaches | swarm/cell-mailbox/src/command.rs:284-331 | over an unchanging view, a walk of n windows hands out what the first of the n stretches with anything to hand out has |
| Mailbox.WalkGivesUp | swarm/cell-mailbox/src/command.rs:284-331 | and nothing when none of them has |
| Mailbox.WalkByIndex | swarm/cell-mailbox/src/command.rs:284-331 | by table index: nothing is handed out iff none of the first n windows' rows decodes and is not withheld; otherwise exactly those rows of the first window that has one |
| Mailbox.ReadMeans | swarm/cell-mailbox/src/command.rs:417-433 | one read gives the rows past the cursor, from the first of them on, as many as fit, short windows included |
| Mailbox.CommandStream.constructor | swarm/cell-mailbox/src/command.rs:212-240 | a fresh stream, with a window of at least one row |
| Mailbox.CommandStream.TakeSettlements | swarm/cell-mailbox/src/command.rs:403-411 | every reported outcome is applied in order, then the book is pruned |
| Mailbox.CommandStream.QueueWindow | swarm/cell-mailbox/src/command.rs:345-395 | queues exactly the eligible rows of a window in order, whatever the dead-lettering does; ids outside the window are withheld as before |
| Mailbox.CommandStream.WalkWindows | swarm/cell-mailbox/src/command.rs:291-331 | over views that may differ from read to read, queues what the walk hands out; a failed read leaves the queue as it was |
| Mailbox.CommandStream.PollBatch | swarm/cell-mailbox/src/command.rs:284-340 | the whole poll: what was handed out is what the reader got and what waits; what is left out as withheld is recent; over one table, Empty iff none of the rows of five windows is ready, else the ready rows of the first window with one, Repeated or Queued as the last batch compares |
| SpawnRefs.ScanSpawnRefs | sdk/myrmic-common/src/cells/spawn_ref.rs:75-107 | the scan finds exactly the references laid out in the bytes that no other found one reaches over, left to right |
| SpawnRefs.FoundIffCandidate | sdk/myrmic-common/src/cells/spawn_ref.rs:75-107 | position by position: a reference is found exactly where a plausible one stands that no found one reaches over |
| SpawnRefs.FoundIsRef | sdk/myrmic-common/src/cells/spawn_ref.rs:75-107 | what is reported of a found reference is what stands there |
| SpawnRefs.LaidIsRef | sdk/myrmic-common/src/cells/spawn_ref.rs:41-55 | what a reference is built as is read as that reference, wherever it stands |
| SpawnRefs.RefIsLaid | sdk/myrmic-common/src/cells/spawn_ref.rs:75-107 | whatever is read as a reference has that layout |
| SpawnRefs.FoundIffLaid | sdk/myrmic-common/src/cells/spawn_ref.rs:75-107 | on the bytes alone: a name and slot are reported iff the magic, 32 slot bytes, the length in four bytes and that name of 1 to 128 bytes of UTF-8 stand there and no found reference reaches over them |
| SpawnRefs.OnlyScan | sdk/myrmic-common/src/cells/spawn_ref.rs:75-107 | only one list of references meets that description |
| SpawnRefs.ScannedSlotsApart | sdk/myrmic-common/src/cells/spawn_ref.rs:75-107 | whatever the bytes, slots are in range, in order and disjoint |
| SpawnPatch.ApplyPatches | swarm/myrmic-build/src/spawn_patch.rs:87-90 | every slot holds its hash and every other byte is as it was |
| SpawnPatch.Patcher.FinalHash | swarm/myrmic-build/src/spawn_patch.rs:53-96 | the recursion ends; on success everything reached is settled for good and the hash is the class's final one or the registry's; an error names a class on a cycle, or a name referred to that the registry does not know or could not look up |
| SpawnPatch.CycleFound | swarm/myrmic-build/src/spawn_patch.rs:68-70 | meeting an active class again closes a cycle of the reference graph through that class |
| SpawnPatch.FixedPointUnique | swarm/myrmic-build/src/spawn_patch.rs:27-42 | an acyclic deploy has one fixed point only, so visiting order cannot matter |
| SpawnPatch.SuccessIsClean | swarm/myrmic-build/src/spawn_patch.rs:53-96 | success rules out a cycle and a missing reference |
| SpawnPatch.ResolveAndPatch | swarm/myrmic-build/src/spawn_patch.rs:27-42 | fails iff the reference graph has a cycle or an out-of-deploy reference does not resolve, and says which; otherwise gives the one output in which every slot holds the hash of the output it names |
| Rescan.RescanIff | swarm/myrmic-build/src/spawn_patch.rs:72-90 | scanning a class of a finished deploy again finds the same references iff nothing the first scan passed over has become plausible through the hashes in the slots |
| Rescan.FillingsAgreeIff | swarm/myrmic-build/src/spawn_patch.rs:72-90 | before the hashes are known: the class scans alike however its slots are filled iff no filling makes a position plausible that the scan passes over |
| Rescan.ClearRescans | sdk/myrmic-common/src/cells/spawn_ref.rs:92-99 | a test on the class as built: where no slot reaches into the length, or the name of plausible length, of what the scan passes over, every filling scans alike |
| Rescan.FarIsClear | sdk/myrmic-common/src/cells/spawn_ref.rs:83-99 | a class passes that test when no slot lies within the 132 bytes a length and the longest name behind a passed-over magic could take |
| Rescan.ClearDeploys | swarm/myrmic-build/src/spawn_patch.rs:27-42 | so a finished deploy of such a class scans as it did before |
| Rescan.PlaceholderImplausible | sdk/myrmic-common/src/cells/spawn_ref.rs:51 | the slot a reference is built with spells no plausible length |
| Rescan.HashTurnsDecoy | sdk/myrmic-common/src/cells/spawn_ref.rs:92-99 | a deploy, with any implausible slot as built, whose one output makes a stray magic number plausible and hides the real reference |
| Fencing.FencingState.Evaluate | swarm/cell-protocol/src/supervision.rs:111-126 | the verdict is the one the history of passes decides; every stored streak between passes is exactly one |
| Fencing.FencingState.ConfirmedAbsent | swarm/cell-protocol/src/supervision.rs:174-189 | confirmed iff a streak was already counted; other cells' streaks stay, and the counter cannot overflow |
| Fencing.FencingState.Forget | swarm/cell-protocol/src/supervision.rs:197-200 | the cell's streaks end |
| Fencing.SelfRefutedKills | swarm/cell-protocol/src/supervision.rs:111-147 | the own row comes first: it kills iff another runtime or life holds it, or it is absent again |
| Fencing.UnattachedIgnoresParent | swarm/cell-protocol/src/supervision.rs:111-126 | a root or detached cell is killed iff its own row refutes it, whatever is read of a parent |
| Fencing.AttachedFollowsParent | swarm/cell-protocol/src/supervision.rs:111-172 | an attached cell whose own row stands is killed iff the parent's row carries another life than its anchor, or its node's lease expired, or it is absent again, each with its own reason |
| Fencing.AbsenceKillsIffConfirmed | swarm/cell-protocol/src/supervision.rs:111-189 | an absent parent row kills iff the cell's own row does not kill first and the latest earlier read of the parent's that did not fail, since the last kill or forget, was absent too |
| Fencing.SelfAbsenceKillsIffConfirmed | swarm/cell-protocol/src/supervision.rs:128-147 | the same for the cell's own row |
| Fencing.FailedReadsChangeNothing | swarm/cell-protocol/src/supervision.rs:111-189 | a failed read of one row leads to no verdict about that row and leaves its streak, and every streak of other cells, as it was |
| Fencing.FailedReadIgnoresStreak | swarm/cell-protocol/src/supervision.rs:111-189 | the verdict of a pass does not depend on the streak of a row it could not read |
| Fencing.CellsIndependent | swarm/cell-protocol/src/supervision.rs:111-200 | a cell's verdict depends on the passes over that cell only |
| Leases.LeaseTracker.Observe | swarm/cell-protocol/src/supervision.rs:229-249 | the tracker keeps, for every node, the first sight of its highest sequence since it was last forgotten |
| Leases.LeaseTracker.IsExpired | swarm/cell-protocol/src/supervision.rs:251-259 | expired iff the history says so |
| Leases.LeaseTracker.JudgeRead | swarm/cell-protocol/src/supervision.rs:278-293 | a read that succeeded is observed, an absent row gives no verdict, a failed one is judged on earlier evidence |
| Leases.LeaseTracker.Expired | swarm/cell-protocol/src/supervision.rs:295-302 | lists exactly the stale nodes, once each |
| Leases.LeaseTracker.Forget | swarm/cell-protocol/src/supervision.rs:304-306 | the node's history starts anew |
| Leases.LatestMeans | swarm/cell-protocol/src/supervision.rs:222-249 | what is remembered of a node is the first sight of its highest sequence since the last forget |
| Leases.UnknownMeans | swarm/cell-protocol/src/supervision.rs:222-259 | a node is unknown iff it was not seen since the last forget |
| Leases.StaleIff | swarm/cell-protocol/src/supervision.rs:251-259 | stale iff the first sight of the highest sequence since the last forget is more than that lease's own ttl ago |
| Leases.StaleErrsLate | swarm/cell-protocol/src/supervision.rs:251-259 | a stale lease was really written more than its own ttl ago, as long as nothing is seen before it is written |
| Text.UuidRoundTrip | sdk/myrmic-common/src/cells/ids.rs:117-131 | what an identity prints as is read back as that identity |
| Text.UuidTextIff | sdk/myrmic-common/src/cells/ids.rs:117-131 | of all the text an identity is read from, it prints as the hyphenated lower-case form alone |
| Text.ReadIff | sdk/myrmic-common/src/cells/ids.rs:117-131 | text is read as an identity iff it is its 32 digits bare, hyphenated, in braces or as a URN |
| Text.ValueIff | sdk/myrmic-common/src/cells/ids.rs:117-131 | a character is worth d iff it is the d-th hexadecimal digit in either case |
| Generations.KeyRoundTrip | swarm/cell-protocol/src/generations.rs:31-59 | every printed key parses back to its cell and generation |
| Generations.KeysDistinct | swarm/cell-protocol/src/generations.rs:31-38 | distinct lives have distinct keys |
| Generations.KeyReadIff | swarm/cell-protocol/src/generations.rs:49-59 | a key names a generation iff it is the prefix, an identity, a slash, 16 characters read as the time and 32 read as the id |
| Generations.KeysSortByAge | swarm/cell-protocol/src/generations.rs:31-38 | a cell's keys sort as text the way its generations do: by time, then by node id |
| Generations.PrintsBackIff | swarm/cell-protocol/src/generations.rs:49-59 | a key that parses is the one its generation prints as iff it is canonical text |
| Generations.PlusKeyParses | swarm/cell-protocol/src/generations.rs:49-59 | a key with a plus sign for a leading zero parses to the same generation and is not the printed one |
| Generations.PrefixIsolates | swarm/cell-protocol/src/generations.rs:42-44 | a key lies under the prefix of exactly its own cell |
| Generations.Collect | swarm/cell-protocol/src/generations.rs:164-178 | the first pass keeps, for every cell named, the first entry of its greatest generation, and lists the malformed keys in order |
| Generations.Newest | swarm/cell-protocol/src/generations.rs:157-189 | one result per cell named, cells ascending: the row its greatest generation's value decodes to, under that cell and generation, or that key where it does not decode; then every malformed key |
| Generations.ListingUnique | swarm/cell-protocol/src/generations.rs:157-189 | that description leaves no choice: only one list meets it |
| Selectors.SriOfPath | sdk/myrmic-common/src/cells/naming.rs:84-90 | the loop folds the path, stopping at the first refused segment |
| Selectors.ChildIsPath | sdk/myrmic-common/src/cells/naming.rs:72-90 | a child's identity under its parent is its identity by full path |
| Selectors.PathAccepted | sdk/myrmic-common/src/cells/naming.rs:57-90 | a path has an identity iff every segment matches [a-z0-9][a-z0-9._-]*; it is refused for the first that does not |
| Selectors.PrintParses | swarm/cell-protocol/src/replication.rs:160-224 | every well-formed selector survives print then parse |
| Selectors.ParsedWellFormed | swarm/cell-protocol/src/replication.rs:160-212 | parsing yields well-formed selectors only |
| Selectors.CanonicalStays | swarm/cell-protocol/src/replication.rs:160-224 | every string that parses prints to a form that parses to the same selector |
| Selectors.RoundTripsIff | swarm/cell-protocol/src/replication.rs:160-224 | a selector survives print then parse iff it is well-formed |
| Selectors.KeysIdentify | swarm/cell-protocol/src/replication.rs:253-256 | keys identify well-formed selectors |
| Selectors.NameSelects | swarm/cell-protocol/src/replication.rs:178-184 | a bare valid name that is no UUID selects the root's child of that name |
| Selectors.PathSelects | swarm/cell-protocol/src/replication.rs:178-184 | if a path selects a cell, one more segment selects that cell's child or is what the longer path is refused for |
| Selectors.AppExact | swarm/cell-protocol/src/replication.rs:160-185 | an application is selected by its prefix and a non-empty name, and by nothing else |
| Selectors.ScopeExact | swarm/cell-protocol/src/replication.rs:160-212 | a slice of the hierarchy is selected by its prefix and one to three non-empty segments, and by nothing else |
| Selectors.RefusalMeans | swarm/cell-protocol/src/replication.rs:160-212 | which refusal says what: nothing written, no application name, a bad slice, or a path refused for its segment |
| Custody.WinsIff | swarm/cell-protocol/src/replication.rs:316-322 | the winner is the one claimant that outranks every other |
| Custody.WinnerIsGreatest | swarm/cell-protocol/src/replication.rs:316-322 | the winner is the claimant than which none has a greater hash, nor the same hash and a greater id |
| Custody.OrderIrrelevant | swarm/cell-protocol/src/replication.rs:307-322 | order and repetition of the claimants do not matter |
| Custody.WinnerOfWinners | swarm/cell-protocol/src/replication.rs:276-280 | the winner of two sides together is the winner of their winners |
| Custody.LoserLeaves | swarm/cell-protocol/src/replication.rs:276-280 | a loser that gives up changes nothing |
| NodeTags.Overlay.Add | swarm/cell-protocol/src/node_tags.rs:85-90 | the lists stay disjoint, without repeats, and say of every tag what its last edit said |
| NodeTags.Overlay.Remove | swarm/cell-protocol/src/node_tags.rs:93-98 | the same after a removal |
| NodeTags.Effective | swarm/cell-protocol/src/node_tags.rs:108-131 | no repeats; a tag is carried iff it is intrinsic, or its last edit added it, or it is configured and was never edited |

## Left out

- Retention and garbage collection of sync points, and what chunk entries do to tables.
- Several scopes at once: announces, drains and offloads are modelled for one scope.
- A full replica that is itself demoted to a drain: in `Offload` a drain may become a full replica, and full replicas stay full.
- Escalation deadlines and when a drain is promoted: in `Offload` it may happen at any time.
- The pull pacer, probe cooldowns, the guard against concurrent pulls and the peer view.
- Collision freedom of the head digest: it is a hypothesis (`FoldsFaithful`) of the exactness results, about the two frontiers at hand only.
- A class registry whose answers change between lookups: it is a pure map, in which a lookup may fail.
- The server-side finish that rolls back, which the client never asks for; and a request that names a transaction the node does not hold counts as refused.
- Requests a caller issues under the id `tx_id` returns: the ledger covers the application's own calls.
- Access mode, placement and custody side effects of a new transaction: whether it is admitted, and on what snapshot, is a parameter.
- Dead letters, metrics, wakeups and polling intervals of the command stream: whether a dead letter is stored is a parameter.
- Row values of generation rows: decoding is an arbitrary partial function.
- Registry-dependent expansion of selectors into scopes, the custody row's key, and replica entry matching: they would only add easy members.
- The CLI, build drivers, firmware, SDK macros, transports and event streams.
