# Release and custody logic of NEOTH, modelled in Dafny

NEOTH decides in `packaging/` whether a release may happen, what it ships, and how its
integration canaries take back what they created in a container engine. This project models the
algorithms behind those decisions and proves what they promise, for every input and every run.
`dafny verify dfyconfig.toml` checks all of it.

## Components

| file | what it models |
|---|---|
| `AdvisoryGraph`, `AdvisoryWalk`, `AdvisoryShape`, `AdvisoryGate`, `AdvisoryExample`, `AdvisoryReview` | the reverse-dependency gate: a depth-first search over the product of the reversed dependency graph and a five-state automaton |
| `Engine`, `Custody`, `CustodyRun` | write-ahead custody of candidate containers and volumes in an engine whose commands may fail before or after taking effect |
| `Rollback` | cleanup of the rollback fixture and of restore targets, and the transfer of custody |
| `NoticeReach`, `NoticeCoverage`, `NoticeSection` | reachability of shipped crates, two-pass license coverage, and the rewrite of the generated section |
| `Commitments` | the preimages of the relink commitments, their decoder, and the separately written encoders |
| `PinRevision` | guarded inverse byte substitutions |
| `Preservation` | the submitted-field relation on JSON |
| `Roadmap` | the fence-aware roadmap parser and its release gate |
| `Archive` | the archive manifest |
| `RunSelection` | selection of the newest workflow run |
| `ReleaseVersion`, `Assets` | the version grammars and the closed set of asset names |
| `Outcomes`, `Sorting`, `TextSearch` | shared result types, Python's `sorted`, and Python's `find`, `count` and `rstrip` |

Python exceptions are `Failure`, `Fail` or `None` values. SHA-256 is a function parameter, and
injectivity is assumed only where a contract says so. Loops that update variables are methods with
loops; `Custody` and the walk of the gate are classes; expressions are functions.

### How the main results hang together

**The advisory gate.** `AdvisoryWalk.Walker.Visit` is the recursive walk. Its invariant keeps a
stack (a walk from the root), a finishing order (a certificate that every finished marker may be
expanded and leads only to markers finished before it) and the list of expanded markers, which has
no repetition. A finished root certifies acceptance (`FinishedMeansAccepted`); a refusal yields a
reachable stuck marker or a reachable cycle (`StuckRejects`, `CycleRejects`). `AdvisoryGate.WalkFrom`
is therefore an if-and-only-if for every finite graph, cyclic or not, and the walk ends because
each call grows the active set inside a finite universe. `AdvisoryShape` then removes the automaton:
acceptance means that every plain reverse path, cut at the first workspace member after a Matrix
package, has the reviewed shape. The error set `NeverRaised` holds the final zero check and the
in-walk version checks, and every failure contract excludes it.

**Custody.** `Engine.Docker` chooses its outcomes: a create may take effect or not whatever it
reports, an absence query may fail to prove absence but never proves a live resource absent. Its
create commands take the caller's record as a ghost argument and demand that the name is already
in it, so writing the intent first is a checked obligation of the caller. An exact engine is one whose
commands all report what they found or did. `CustodyRun.Run` covers
every sequence of steps and every failure point.

### Where the code and the expected property differ

- Material preimages are not injective once a target holds a NUL byte. Two preimages of one channel
  coincide exactly for equal targets and fields, or where one target continues the other with a NUL
  and swallows the start of its frames (`Commitments.MaterialCollision`). The Google Chat encoder has
  such a pair, with its own constants and two key files (`GchatTargetsCollide`). NUL-free targets are
  safe (`MaterialInjective`), and two channels never collide (`ChannelsNeverCoincide`).
- The count guard of the pin reconstruction counts without overlap. It ensures a single pin exactly
  when no further copy starts at the closing quote of the one that is found
  (`PinRevision.GuardMeansSinglePin`), and under the same condition the reconstructed text is free of
  the new pin (`ReconstructedHoldsPin`); `OverlappingPinPassesGuard` shows a text that violates it.
  The chain is exactly reversible in either case.
- If two records of one run disagree, the newest-run selection depends on their order
  (`RunSelection.StaleRecordDisagrees`). It is independent of order exactly when the newest records
  get one verdict (`OrderIrrelevant`, `DisagreementDependsOnOrder`); distinct ids suffice
  (`DistinctIdsAgree`).
- Up to imbl the walk compares names and versions only, so a workspace member that carries a reviewed name may
  stand before the end of a path (`AdvisoryExample.EarlyMemberAccepted`). Among the Matrix packages
  it can only be the one directly after imbl (`AdvisoryShape.EarlyMembers`), and it must carry the
  reviewed version and the registry source (`AdvisoryReview.ReviewedAreCanonical`).
- An exactly reporting engine does not make every cleanup succeed. After any steps it succeeds
  exactly if every holder of a pending name realises that very intent and no older container is named
  like a live recorded volume (`CustodyRun.Finish`). The first part fails exactly when a live
  candidate's name is also recorded for a different request (`IdentifiableExactly`,
  `TargetNameReusedFails`); steps that use each name for one purpose avoid it (`Run`).
- Checking right after writing can fail: the notices file is read with newline translation and written
  without, and license snapshots enter the block as they are. It passes exactly if the block holds no
  carriage return and has its only end marker last (`NoticeSection.WriteThenCheck`,
  `CarriageReturnIsStale`).
- `create_candidate` does not look at its volume. A volume that is neither recorded nor live is
  created by the mount and then stays outside custody; this is the only way a step loses cover
  (`Custody.Ledger.CreateCandidate`, `Custody.MountCreated`).

## Model

| member | source | states |
|---|---|---|
| `AdvisoryGraph.MetadataPackages` | packaging/advisory_exception_gate.py:160-243 | Accepts exactly the metadata with valid packages, unique ids, known distinct workspace members, and resolve nodes that cover every package once with known, unrepeated dependencies; the result represents that metadata. |
| `AdvisoryGraph.CheckNode` | packaging/advisory_exception_gate.py:211-236 | A node passes iff its id and all its dependencies are known and no dependency repeats. |
| `AdvisoryGraph.CheckNodes` | packaging/advisory_exception_gate.py:210-242 | The node list passes iff each node is well formed and the ids enumerate the packages without repetition. |
| `AdvisoryGraph.IndexPackages` | packaging/advisory_exception_gate.py:176-200 | Succeeds iff every package is valid and ids are distinct; the table holds exactly the packages by id. |
| `AdvisoryGraph.CollectWorkspace` | packaging/advisory_exception_gate.py:201-209 | Succeeds iff the members are known packages without repetition; the result is their set. |
| `AdvisoryGraph.CheckReviewedName` | packaging/advisory_exception_gate.py:251-269 | One reviewed name passes iff at most one package has it and that one has the reviewed version and the registry source. |
| `AdvisoryGraph.CheckReviewed` | packaging/advisory_exception_gate.py:250-269 | The pre-check passes iff this holds for every reviewed name. |
| `AdvisoryGraph.NamedAtMostOne` | packaging/advisory_exception_gate.py:251-258 | Counting the candidates in order decides uniqueness of the name. |
| `AdvisoryGraph.ReviewedNamesAreTheRoles` | packaging/advisory_exception_gate.py:35-52 | The names with a role in the automaton are exactly the keys of the reviewed-version table. |
| `AdvisoryWalk.ReverseEdges` | packaging/advisory_exception_gate.py:285-290 | For every package the reversed and sorted list enumerates exactly its dependents, each once. |
| `AdvisoryWalk.AddDependent` | packaging/advisory_exception_gate.py:286-288 | One node is appended to the lists of its dependencies and to no other. |
| `AdvisoryWalk.Walker.constructor` | packaging/advisory_exception_gate.py:298-303 | The walk starts with nothing visited, active, expanded or counted. |
| `AdvisoryWalk.Walker.Visit` | packaging/advisory_exception_gate.py:322-419 | On return the marker is visited, the active set is as before and the counter grew by the terminal edges of the markers finished meanwhile; on failure no acceptance is possible and the error is never a version check or the zero check. `Valid()` keeps each marker expanded at most once; terminates on every graph. |
| `AdvisoryWalk.Walker.Expand` | packaging/advisory_exception_gate.py:336-415 | After the parent loop every parent is terminal or visited, and exactly the terminal ones were counted. |
| `AdvisoryWalk.WalkDescends` | packaging/advisory_exception_gate.py:322-419 | Along any walk of the product graph the finishing index strictly falls, so the walk repeats no marker. |
| `AdvisoryWalk.FinishedMeansAccepted` | packaging/advisory_exception_gate.py:322-419 | A finishing order that contains the root certifies acceptance: nothing reachable is stuck, illegal or on a cycle. |
| `AdvisoryWalk.StuckRejects` | packaging/advisory_exception_gate.py:337-410 | A reachable marker without parents or with an illegal parent refutes acceptance. |
| `AdvisoryWalk.CycleRejects` | packaging/advisory_exception_gate.py:325-329 | A walk that returns to one of its own markers refutes acceptance. |
| `AdvisoryWalk.FirstFinishedTerminates` | packaging/advisory_exception_gate.py:402-404 | The first finished marker ends at a workspace member, so the counter is positive. |
| `AdvisoryWalk.TerminalEdgesArePairs` | packaging/advisory_exception_gate.py:402-404 | The counter equals the number of distinct pairs of a finished marker and a workspace dependent. |
| `AdvisoryGate.VisitedIsReachable` | packaging/advisory_exception_gate.py:298-421 | The visited markers are exactly the markers reachable from the root. |
| `AdvisoryGate.WalkFrom` | packaging/advisory_exception_gate.py:285-426 | The walk succeeds iff every reachable marker has a parent, all its parents are legal moves and no cycle is reachable; the count is the number of terminal edges of reachable markers and is positive; the zero check and the in-walk version checks never fire. |
| `AdvisoryGate.RequireMatrixOnlyBitmapsChain` | packaging/advisory_exception_gate.py:246-426 | The whole gate: iff well-formed metadata, canonical reviewed packages, one bitmaps package and an accepted product graph. |
| `AdvisoryShape.RunSpells` | packaging/advisory_exception_gate.py:292-417 | The automaton is still running on a path iff the path has the reviewed shape, and cuts it iff it is a reviewed path with a Matrix package followed by a workspace member. |
| `AdvisoryShape.RunIsWalk` | packaging/advisory_exception_gate.py:322-417 | A path the automaton follows is a walk of the product graph. |
| `AdvisoryShape.WalkIsRun` | packaging/advisory_exception_gate.py:322-417 | Conversely a walk from state 0 is such a path, each state being given by the package name. |
| `AdvisoryShape.AcceptanceMeansReviewedPaths` | packaging/advisory_exception_gate.py:292-417 | Acceptance iff every reverse path from bitmaps, cut at the first workspace member after a Matrix package, spells bitmaps, optional imbl-sized-chunks, imbl, optional eyeball-im, Matrix packages and the member, repeats no package and is never stuck. |
| `AdvisoryShape.AcceptedPathsAreBounded` | packaging/advisory_exception_gate.py:322-426 | On acceptance an uncut path is at most as long as the number of packages. |
| `AdvisoryShape.EarlyMembers` | packaging/advisory_exception_gate.py:345-401 | On acceptance a workspace member before the end of a path has a reviewed name, and if it is a Matrix package it stands directly after imbl. |
| `AdvisoryGate.AcceptedChainShape` | packaging/advisory_exception_gate.py:246-426 | The accepted chain stated on the metadata alone: reviewed packages, the target, and the shape of all reverse paths. |
| `AdvisoryExample.EarlyMemberAccepted` | packaging/advisory_exception_gate.py:363-379 | The graph bitmaps, imbl, matrix-sdk, app with the last two in the workspace is accepted, and the path up to matrix-sdk is reviewed but not complete. |
| `AdvisoryReview.ReviewedOnlyMeans` | packaging/advisory_exception_gate.py:250-269 | The pre-check holds iff each of the ten reviewed names occurs at most once, with its version and the crates.io source, all spelled out. |
| `AdvisoryReview.ReviewedAreCanonical` | packaging/advisory_exception_gate.py:250-269 | In whatever is accepted, a package with a reviewed name, workspace member or not, has the reviewed version and the registry source, name by name. |
| `AdvisoryReview.GitSourceRefused` | packaging/advisory_exception_gate.py:259-269 | imbl from a git source is refused whatever else the metadata says. |
| `AdvisoryReview.WellFormedMeans` | packaging/advisory_exception_gate.py:160-243 | Well-formed metadata has no empty id, name or version, no repeated id, only known members and dependencies, and a node for each package. |
| `AdvisoryReview.ListedMeans` | packaging/advisory_exception_gate.py:130-157 | The closed and the synchronised list state in terms of the two advisory ids. |
| `AdvisoryReview.ExpiryDate` | packaging/advisory_exception_gate.py:24-24 | The exception ends on 13 November 2026. |
| `AdvisoryGate.Validate` | packaging/advisory_exception_gate.py:429-463 | Closed iff both ignore lists are free of the advisories and the well-formed graph has no bitmaps; active iff both lists hold each advisory once, the expiry is ahead and the chain is accepted. |
| `Engine.Docker.ContainerAbsent` | packaging/n8n_product_bootstrap_canary.py:1181-1186 | Absence is proven only of containers that do not answer to the identifier. |
| `Engine.Docker.VolumeAbsent` | packaging/n8n_product_bootstrap_canary.py:1181-1186 | Absence is proven only of volumes that are not live. |
| `Engine.Docker.Inspect` | packaging/n8n_update_migration_canary.py:22-25 | Shows only live rows; a container before a volume of that name, an id before a name. |
| `Engine.Docker.CreateContainer` | packaging/n8n_update_migration_canary.py:206-212 | Demands the name on record first; then takes effect completely or not at all, whatever it reports. |
| `Engine.Docker.CreateVolume` | packaging/n8n_update_migration_canary.py:95-99 | The same for volumes. |
| `Custody.RequestedIdentity` | packaging/n8n_update_migration_canary.py:109-144 | A container created as requested passes the full identity check of its intent and mounts only the intended volume. |
| `Custody.IdentityMeans` | packaging/n8n_update_migration_canary.py:109-144 | A container that passes the check has the recorded id, name, image, labels, phase, isolation, single volume mount, scratch mount and command, spelled out. |
| `Custody.OwnershipMeans` | packaging/n8n_update_migration_canary.py:79-84 | The three labels of a run. |
| `Custody.CandidateNameMeans` | packaging/n8n_update_migration_canary.py:10-10 | An accepted volume name is the prefix and sixteen hexadecimal digits. |
| `Custody.OwnedMeans` | packaging/n8n_update_migration_canary.py:178-185 | A removed volume was recorded and had exactly the ownership labels; every other volume is unchanged. |
| `Custody.IdentifiedIsOurs` | packaging/n8n_update_migration_canary.py:155-177 | A container that passes the check for a pending name does not predate the run. |
| `Custody.MountCreated` | packaging/n8n_update_migration_canary.py:206-208 | A volume created by a mount is covered iff it was recorded before. |
| `Custody.Ledger.constructor` | packaging/n8n_update_migration_canary.py:89-90 | A new ledger records nothing. |
| `Custody.Ledger.Validate` | packaging/n8n_update_migration_canary.py:109-144 | True only for a live row with the recorded identity and the demanded running flag; an exact engine lets every such row pass, with or without a flag. |
| `Custody.Ledger.ValidateVolume` | packaging/n8n_update_migration_canary.py:103-107 | True only for the live volume of that name with exactly the ownership labels. |
| `Custody.Ledger.MakeVolume` | packaging/n8n_update_migration_canary.py:92-101 | The name is on record before the engine changes; the old world and the cover of everything new are kept. With an exact engine a well-formed free name is tried, and a volume is handed out iff it was created and no container has its name. |
| `Custody.Ledger.Issue` | packaging/n8n_update_migration_canary.py:206-212 | Whatever the create does or reports, every container beyond the old world stays covered by an intent; volumes stay covered iff the mounted one is recorded or none was created. |
| `Custody.Ledger.Adopt` | packaging/n8n_update_migration_canary.py:146-153 | The reported id is recorded before it is checked; success means the container passed the check, is not running and is new; with an exact engine a stopped created container is adopted. |
| `Custody.Ledger.CreateCandidate` | packaging/n8n_update_migration_canary.py:197-212 | For any volume: no effect without a recorded intent; containers stay covered in every outcome, volumes iff the given one is recorded or none was created; success means the requested candidate, recorded, identified and stopped. With an exact engine a free name with a usable image is tried, and a candidate is handed out iff it was created. |
| `Custody.Ledger.ReconcileOne` | packaging/n8n_update_migration_canary.py:157-168 | Adds at most the identified holder of a pending name; success means the name is free or its holder, which realises the intent, is on record; with an exact engine it succeeds iff every holder realises the intent. |
| `Custody.Ledger.ReconcilePending` | packaging/n8n_update_migration_canary.py:157-168 | The same for all pending intents; one failure skips no other. |
| `Custody.Ledger.RemoveOne` | packaging/n8n_update_migration_canary.py:169-177 | Removes nothing but the recorded container, and only if it passed the check. |
| `Custody.Ledger.RemoveRecorded` | packaging/n8n_update_migration_canary.py:169-177 | Removes only identified recorded containers; success means none of them is live. |
| `Custody.Ledger.RemoveOneVolume` | packaging/n8n_update_migration_canary.py:178-185 | Removes only a recorded volume with the ownership labels. |
| `Custody.Ledger.RemoveVolumes` | packaging/n8n_update_migration_canary.py:178-185 | The same for all recorded volumes; success means none is live. |
| `Custody.Ledger.Cleanup` | packaging/n8n_update_migration_canary.py:155-186 | True implies every pending name, recorded id and recorded volume is gone, that every holder of a pending name realised its intent, and that no container is named like a volume it removed; in every outcome only identified resources were removed and the rest is unchanged; with an exact engine it succeeds on everything identifiable. With everything gone already and exact absence queries it succeeds without effect, so a second call after a successful one is again successful and effect-free. |
| `CustodyRun.OwnStepSecured` | packaging/n8n_update_migration_canary.py:506-512 | Starting or removing an own candidate keeps old world and cover. |
| `CustodyRun.CleanupKeepsOldWorld` | packaging/n8n_update_migration_canary.py:155-186 | Cleanup never touches a container that predates the run. |
| `CustodyRun.HeldIsCleanable` | packaging/n8n_update_migration_canary.py:155-186 | After any steps everything left over passes its checks if each holder of a pending name realises its intent and no older container is named like a live volume. |
| `CustodyRun.IdentityDetermines` | packaging/n8n_update_migration_canary.py:109-144 | A container passes the identity check of at most one intent. |
| `CustodyRun.IdentifiableExactly` | packaging/n8n_update_migration_canary.py:157-168 | All pending names can be reconciled iff no live candidate has a name that is also recorded for another request. |
| `CustodyRun.ReusedNameStalls` | packaging/n8n_update_migration_canary.py:157-168 | While a candidate is live, another intent under its name cannot be reconciled. |
| `CustodyRun.TargetNameReusedFails` | packaging/n8n_update_migration_canary.py:157-168 | A covered and truly recorded state in which a target candidate holds the name of a removed one with another image: it cannot be released. |
| `CustodyRun.StepsDecide` | packaging/n8n_update_migration_canary.py:496-512 | Steps that use each name for one request leave one intent per name. |
| `CustodyRun.ConsistentIsReleasable` | packaging/n8n_update_migration_canary.py:155-186 | One intent per name, and no older container named like a volume, make everything releasable. |
| `CustodyRun.RestoredExactly` | packaging/n8n_update_migration_canary.py:155-186 | Old world intact, everything else covered, everything covered gone: the world is exactly the old one. |
| `CustodyRun.Perform` | packaging/n8n_update_migration_canary.py:496-531 | Every step, a cleanup among them, keeps the invariant, whatever the engine answers, and hands out only what it made and identified. With an exact engine a possible step is tried and succeeds iff it had its effect; a successful cleanup step restores the old world. |
| `CustodyRun.StartOwn` | packaging/n8n_update_migration_canary.py:512-512 | Starting keeps the invariant; with an exact engine it succeeds iff the candidate then runs. |
| `CustodyRun.RemoveOwn` | packaging/n8n_update_migration_canary.py:506-506 | Removing keeps the invariant; with an exact engine the candidate is then gone. |
| `CustodyRun.Run` | packaging/n8n_update_migration_canary.py:466-555 | Every run with any number of cleanups, cut at any failure and cleaned up: the old world is unchanged, everything left is on record, every successful step left its name on record and nothing else is; reported success means the world is exactly as before; with an exact engine success is certain for steps that use each name for one request and whose volume names no older container has. |
| `CustodyRun.Finish` | packaging/n8n_update_migration_canary.py:530-555 | A cleanup restores the old world whenever it reports success and keeps the invariant for a later one; with an exact engine it succeeds iff every holder of a pending name realises its intent and no older container is named like a live recorded volume. |
| `Rollback.RemoveGuardedVolume` | packaging/n8n_product_bootstrap_canary.py:719-721 | May be called only with the container proven absent and the labels checked; removes at most that volume. |
| `Rollback.RemoveRuntime` | packaging/n8n_product_bootstrap_canary.py:706-714 | Removes at most the one container, and only after its identity check; true implies it is gone. |
| `Rollback.RemoveVolume` | packaging/n8n_product_bootstrap_canary.py:716-723 | Removes at most the one volume, after its label check; true implies it is gone. |
| `Rollback.CleanOld` | packaging/n8n_product_bootstrap_canary.py:701-723 | The old volume is touched only with the old container proven gone; both results mean absence; with an exact engine a side that is as its witness says is removed. |
| `Rollback.CleanNew` | packaging/n8n_product_bootstrap_canary.py:725-754 | The same for the new side; what is said to be absent already is only looked at, and disagreeing witnesses touch nothing. |
| `Rollback.CleanOldSide` | packaging/n8n_product_bootstrap_canary.py:701-723 | A missing old witness is a failure and changes nothing. |
| `Rollback.CleanNewSide` | packaging/n8n_product_bootstrap_canary.py:725-754 | A missing new witness is a failure and changes nothing. |
| `Rollback.NewSideSurvives` | packaging/n8n_product_bootstrap_canary.py:700-755 | Whatever the old side removes, a new side with another container stays as its witnesses say. |
| `Rollback.CleanupRollbackFixture` | packaging/n8n_product_bootstrap_canary.py:689-755 | True implies all four resources absent on complete, agreeing witnesses; only identified containers and labelled volumes go, each volume with its container gone. With an exact engine failure on the old side skips neither the new container nor the restore volume, the old side goes whatever the new one is, and with both sides as witnessed the cleanup succeeds. |
| `Rollback.CleanupRestoreVolume` | packaging/n8n_product_bootstrap_canary.py:983-995 | Removes only the receipt's volume with the exact restore labels, candidate absent, never the live volume. |
| `Rollback.CleanupRestoreTargets` | packaging/n8n_product_bootstrap_canary.py:997-1003 | True implies every target absent; only targeted volumes go; one failure skips no other target. |
| `Rollback.CaptureCustody` | packaging/n8n_product_bootstrap_canary.py:767-787 | Succeeds iff the receipt and the target agree; the three witnesses carry exactly the ids, retained name, jobs and volumes of receipt and arguments; moves exactly that target, loses and duplicates none, keeps the order; a rejection changes nothing. |
| `Rollback.CaptureThenClean` | packaging/n8n_product_bootstrap_canary.py:689-787 | Transfer and cleanup compose: on a fixture that is live as receipt and arguments say, an exact engine lets the cleanup succeed on the captured witnesses. |
| `Rollback.TransferMeans` | packaging/n8n_product_bootstrap_canary.py:776-783 | A transfer goes through only for well-formed ids, jobs and volumes and a listed target that receipt and caller agree on. |
| `Rollback.RuntimeIdentityMeans` | packaging/n8n_product_bootstrap_canary.py:1147-1179 | What a container that passes the runtime check is. |
| `Rollback.WitnessChecksMean` | packaging/n8n_product_bootstrap_canary.py:706-710 | The old container also has its retained name. |
| `Rollback.VolumeChecksMean` | packaging/n8n_product_bootstrap_canary.py:417-423 | What a volume that passes the retained or the restore check is. |
| `Rollback.RestoreVolumeNamed` | packaging/n8n_product_bootstrap_canary.py:932-935 | The restore volume is named after its job without the hyphens. |
| `Rollback.HexMeans` | packaging/n8n_product_bootstrap_canary.py:776-780 | Ids are made of lower-case hexadecimal digits. |
| `Commitments.ValueOfLittleEndian` | packaging/bluebubbles_daemon_adoption_canary.py:179-197 | Reading back a little-endian length gives the length. |
| `Commitments.LittleEndianOfValue` | packaging/bluebubbles_daemon_adoption_canary.py:179-197 | Each byte string is the encoding of its value. |
| `Commitments.EightBytes` | packaging/bluebubbles_daemon_adoption_canary.py:179-197 | Eight bytes hold exactly the lengths below 2^64. |
| `Commitments.UnframeFrame` | packaging/bluebubbles_daemon_adoption_canary.py:192-196 | A framed field followed by anything decodes to the field and the rest. |
| `Commitments.FrameUnframe` | packaging/bluebubbles_daemon_adoption_canary.py:192-196 | What decodes is the frame of what it decodes to. |
| `Commitments.FramesInjective` | packaging/gchat_converted_relink_product_canary.py:493-503 | A concatenation of frames determines the list of fields, whatever its length. |
| `Commitments.PairRoundTrip` | packaging/bluebubbles_daemon_adoption_canary.py:179-186 | The decoder recovers presence and bytes of both files from the preimage. |
| `Commitments.PairCanonical` | packaging/bluebubbles_daemon_adoption_canary.py:179-186 | Every byte string the decoder accepts is the preimage of what it returns. |
| `Commitments.PairFromSnapshots` | packaging/bluebubbles_daemon_adoption_canary.py:179-186 | Equals the specified digest, or fails exactly on an oversized file. |
| `Commitments.PairV1` | packaging/converted_channel_relink_product_canary.py:63-73 | The second encoder gives the same digest. |
| `Commitments.PairCommitment` | packaging/gchat_converted_relink_product_canary.py:484-491 | The third encoder, reading the files itself, gives the same digest. |
| `Commitments.FeedTwice` | packaging/gchat_converted_relink_product_canary.py:484-491 | Two updates feed exactly one section. |
| `Commitments.FeedSeparately` | packaging/converted_channel_relink_product_canary.py:63-73 | One update per component feeds the same section. |
| `Commitments.PairDigestBinds` | packaging/converted_channel_relink_product_canary.py:63-73 | With an injective hash equal commitments mean equal presence and bytes, and conversely. |
| `Commitments.MaterialInjective` | packaging/bluebubbles_daemon_adoption_canary.py:188-197 | With NUL-free kind and target the preimage determines kind, target and fields; kinds never share one. |
| `Commitments.KindDetermined` | packaging/bluebubbles_daemon_adoption_canary.py:188-197 | NUL-free kinds never share a preimage, whatever the targets. |
| `Commitments.MaterialCollision` | packaging/gchat_converted_relink_product_canary.py:493-503 | Within a channel two preimages are equal iff targets and fields are equal, or one target continues the other with a NUL and swallows the start of its frames. |
| `Commitments.NulTargetsCollide` | packaging/gchat_converted_relink_product_canary.py:493-503 | For every channel and every remaining fields, the empty target and a target of NUL and 2 collide. |
| `Commitments.GchatTargetsCollide` | packaging/gchat_converted_relink_product_canary.py:493-503 | The Google Chat encoder with its own constants gives one commitment for two targets and two key files. |
| `Commitments.BluebubblesMaterial` | packaging/bluebubbles_daemon_adoption_canary.py:188-197 | The daemon encoder computes the digest of target, loopback URL, password, chat and sender, or fails exactly on an oversized field. |
| `Commitments.ImessageRequest` | packaging/converted_channel_relink_product_canary.py:75-80 | The request encoder computes the digest of its four fields under the fixed target. |
| `Commitments.ImessageEncodersAgree` | packaging/converted_channel_relink_product_canary.py:75-80 | On the inputs both can receive the two iMessage encoders give the same commitment. |
| `Commitments.GchatMaterial` | packaging/gchat_converted_relink_product_canary.py:493-503 | The Google Chat encoder computes the digest of key file, subscription and sender under its target. |
| `Commitments.ChannelsNeverCoincide` | packaging/gchat_converted_relink_product_canary.py:493-503 | With an injective hash the two channels never share a commitment. |
| `Commitments.MaterialDigestBinds` | packaging/gchat_converted_relink_product_canary.py:493-503 | With an injective hash two commitments of a channel are equal iff target and fields are, or one target swallows frames of the other, which needs a NUL. |
| `Commitments.PairSpelled` | packaging/bluebubbles_daemon_adoption_canary.py:179-186 | The pair preimage spelled out: header, file names, presence bytes, lengths and contents in order. |
| `Commitments.AsciiMeans` | packaging/bluebubbles_daemon_adoption_canary.py:179-186 | ASCII text is encoded as its character codes. |
| `Commitments.MaterialSpelled` | packaging/gchat_converted_relink_product_canary.py:493-503 | The material preimage spelled out for both channels. |
| `Commitments.MaterialConstants` | packaging/bluebubbles_daemon_adoption_canary.py:188-197 | The fixed fields of the encoders. |
| `Commitments.FrameSpelled` | packaging/bluebubbles_daemon_adoption_canary.py:192-196 | A length stands in front, least significant byte first. |
| `PinRevision.UndoneOccurrence` | packaging/candle_pin_revision.py:155-159 | Undoing creates exactly one occurrence of the old pin, in the window it replaced. |
| `PinRevision.UndoRedo` | packaging/candle_pin_revision.py:155-159 | One guarded substitution changes only its window and is undone by the forward edit. |
| `PinRevision.ChainReversible` | packaging/candle_pin_revision.py:154-160 | A chain that passes its guards keeps the length, changes nothing outside its windows, and the forward edits in reverse order restore the text exactly. |
| `PinRevision.PinLiteralsExchangeable` | packaging/candle_pin_revision.py:83-84 | Two pin literals of equal length may be exchanged without creating stray copies. |
| `PinRevision.SourceEditsExchangeable` | packaging/candle_pin_revision.py:145-159 | This covers the SSH edit and every edit allowed for the three paths. |
| `PinRevision.SshPredecessor` | packaging/candle_pin_revision.py:61-89 | Without a receipt the bytes are unchanged; with one it succeeds iff receipt, digests and guards hold, and returns the undone bytes. |
| `PinRevision.UndoLoop` | packaging/candle_pin_revision.py:154-159 | The loop computes the inverse chain and fails at the first ambiguous step. |
| `PinRevision.Reconstruct` | packaging/candle_pin_revision.py:138-161 | Succeeds iff edits, digests and guards hold; then the result has the recorded digest and the original length, differs from disk only inside the windows, and the forward edits restore the file on disk. |
| `PinRevision.PinsTakenBack` | packaging/candle_pin_revision.py:138-161 | Which paths and pins a reconstruction concerns, and which pins the file on disk then holds exactly once and not at all. |
| `PinRevision.UndoneHolds` | packaging/candle_pin_revision.py:155-159 | The old pin stands where the new one was, and nowhere else. |
| `PinRevision.SshReceiptMeans` | packaging/candle_pin_revision.py:61-89 | What the SSH receipt must say: schema, path, edit and the three digests. |
| `PinRevision.CountAfterFind` | packaging/candle_pin_revision.py:157-159 | Counting goes on right after the first occurrence. |
| `PinRevision.GuardedPins` | packaging/candle_pin_revision.py:157-159 | In a guarded text the new pin stands at the window or at its closing quote, and nowhere else. |
| `PinRevision.GuardMeansSinglePin` | packaging/candle_pin_revision.py:157-159 | The guard ensures a single pin iff no copy starts at the closing quote of the one found. |
| `PinRevision.ReconstructedHoldsPin` | packaging/candle_pin_revision.py:155-159 | The reconstructed text still holds the new pin iff such a copy exists. |
| `PinRevision.OverlappingPinPassesGuard` | packaging/candle_pin_revision.py:157-159 | A text with two overlapping pins that the guard lets through. |
| `NoticeReach.ReachableIsLeast` | packaging/generate_rust_notices.py:105-122 | Reachable packages lie in every set that contains the roots and is closed under edges that are not dev-only. |
| `NoticeReach.ClosedAndReached` | packaging/generate_rust_notices.py:105-122 | A closed set of reached packages is exactly the reachable set. |
| `NoticeReach.FollowAll` | packaging/generate_rust_notices.py:112-122 | Following one node adds exactly its missing dependencies, to the set and to the queue. |
| `NoticeReach.Search` | packaging/generate_rust_notices.py:105-122 | The worklist computes exactly the reachable set in any pop order, and fails iff a reachable package has no node. |
| `NoticeReach.ListPackages` | packaging/generate_rust_notices.py:124-142 | Lists exactly the identities of reachable third-party and vendored packages. |
| `NoticeReach.DistributionPackages` | packaging/generate_rust_notices.py:87-142 | Succeeds iff all roots are found and the search and listing succeed; then an identity is listed iff it ships. |
| `NoticeReach.MixedKindsShip` | packaging/generate_rust_notices.py:112-122 | A package behind an edge that is normal and dev, or has no kinds, ships. |
| `NoticeReach.ReachedByRealEdge` | packaging/generate_rust_notices.py:112-122 | Whatever is reached beyond the roots is reached by an edge that is not dev-only. |
| `NoticeReach.RootsExactly` | packaging/generate_rust_notices.py:92-97 | The roots are exactly the packages without a source under a release name. |
| `NoticeReach.RootsAre` | packaging/generate_rust_notices.py:92-106 | Every such package is in the distribution graph. |
| `NoticeReach.RootsPresent` | packaging/generate_rust_notices.py:98-103 | A profile that resolves has a package under every release name. |
| `NoticeReach.ListedMeans` | packaging/generate_rust_notices.py:124-142 | A listed identity is the name, version and source of a reachable package, or the provenance of a vendored one; own packages are not listed. |
| `NoticeReach.VendoredPackages` | packaging/generate_rust_notices.py:129-139 | A reachable vendored fork ships under its provenance; unusable provenance stops the profile. |
| `NoticeReach.LastPackageWins` | packaging/generate_rust_notices.py:90-91 | Of two entries with one id the later counts. |
| `NoticeReach.MergeProfile` | packaging/generate_rust_notices.py:406-411 | Merging keeps the first record of an identity and adds the target. |
| `NoticeReach.MergeStep` | packaging/generate_rust_notices.py:402-411 | One more merged profile keeps the meaning of the table. |
| `NoticeReach.ResolvedReleasePackages` | packaging/generate_rust_notices.py:400-419 | After all profiles an identity is listed iff it ships somewhere, and its targets are exactly those from which it is reachable. |
| `NoticeCoverage.ClassesPartition` | packaging/generate_rust_notices.py:440-491 | Each occurrence of a crate is in the list of its own class and in no other. |
| `NoticeCoverage.AdmitCrate` | packaging/generate_rust_notices.py:440-479 | One crate is admitted iff it has a license and intact texts; tables and class lists then describe one crate more. |
| `NoticeCoverage.CollectTexts` | packaging/generate_rust_notices.py:440-479 | The first pass succeeds iff every crate is admissible. |
| `NoticeCoverage.TablesMean` | packaging/generate_rust_notices.py:474-479 | Texts, labels and repository entries are exactly those contributed by some crate. |
| `NoticeCoverage.InheritTexts` | packaging/generate_rust_notices.py:481-491 | Pending crates label exactly the texts of their repository; the rest is reported missing. |
| `NoticeCoverage.Generate` | packaging/generate_rust_notices.py:431-491 | Succeeds iff every crate is covered; each text then lists exactly the labels of the crates that carry it, and the class lists are exact. |
| `NoticeCoverage.EveryCrateCovered` | packaging/generate_rust_notices.py:481-491 | Every crate is listed under some text; a crate without own texts only under texts a crate of the same repository contributed in the first pass. |
| `NoticeCoverage.ListsMean` | packaging/generate_rust_notices.py:446-456 | Which of the four lists a crate is in, in terms of its notices and its snapshot. |
| `NoticeCoverage.ContributionMeans` | packaging/generate_rust_notices.py:456-476 | A crate contributes its own notices if it has any, else the files of its snapshot. |
| `NoticeCoverage.CompleteMeans` | packaging/generate_rust_notices.py:440-491 | After success every crate has a license, intact snapshot files, or a crate of its nonempty repository key that contributes. |
| `NoticeCoverage.LabelMeans` | packaging/generate_rust_notices.py:361-362 | A text lists name and version of the crates that contribute it. |
| `NoticeCoverage.OrderIrrelevant` | packaging/generate_rust_notices.py:431-491 | Success and coverage depend on the crates only, not on their order. |
| `NoticeSection.RewriteForm` | packaging/generate_rust_notices.py:637-655 | Every successful rewrite is marker-free text, the block, and a remainder. |
| `NoticeSection.FirstInsertion` | packaging/generate_rust_notices.py:642-653 | Without markers the rewrite succeeds, keeps the text up to trailing space and everything from the Keet section on, and puts the block between. |
| `NoticeSection.MalformedExactly` | packaging/generate_rust_notices.py:638-641 | It refuses exactly a file with one marker alone or whose first end marker precedes every start marker. |
| `NoticeSection.ReadBackLineEnds` | packaging/generate_rust_notices.py:666-666 | Reading turns CR LF and a lone CR into one newline. |
| `NoticeSection.MarkersSpelled` | packaging/generate_rust_notices.py:29-30 | The markers. |
| `NoticeSection.RewriteIdempotent` | packaging/generate_rust_notices.py:637-669 | For a block that starts with the start marker: the new content is its own next content iff the block has its only end marker last. |
| `NoticeSection.WriteThenCheck` | packaging/generate_rust_notices.py:665-680 | For such a block, with newline translation on reading: checking after writing passes iff the block has its only end marker last and holds no carriage return. |
| `NoticeSection.CarriageReturnIsStale` | packaging/generate_rust_notices.py:665-680 | A block with a carriage return for which every check after a write reports stale notices. |
| `NoticeSection.ReadBackFixed` | packaging/generate_rust_notices.py:666-666 | Reading changes a file iff it holds a carriage return. |
| `NoticeSection.SimpleBlock` | packaging/generate_rust_notices.py:493-495 | Any body without an angle bracket between the markers is a block of the demanded form. |
| `NoticeSection.RewriteKeepsSurroundings` | packaging/generate_rust_notices.py:637-680 | With markers present, text outside them is kept as it was read, apart from one added final newline, and the text between is the block; the text read is the file itself iff it holds no carriage return. |
| `Preservation.PreservesReflexive` | packaging/n8n_bootstrap_canary.py:339-350 | The relation is reflexive. |
| `Preservation.PreservesTransitive` | packaging/n8n_bootstrap_canary.py:339-350 | The relation is transitive. |
| `Preservation.PreservesAntisymmetric` | packaging/n8n_bootstrap_canary.py:339-350 | The relation is antisymmetric. |
| `Preservation.AdditionPreserved` | packaging/n8n_bootstrap_canary.py:339-350 | Adding an unsubmitted key to any object at any depth is preserved. |
| `Preservation.PreservedGrows` | packaging/n8n_bootstrap_canary.py:339-350 | Conversely whatever is preserved arises from such additions. |
| `Preservation.PreservesMeansAdditions` | packaging/n8n_bootstrap_canary.py:339-350 | Preserved iff obtained by finitely many additions of unsubmitted keys. |
| `Preservation.MatchMeansUnchangedGraph` | packaging/n8n_bootstrap_canary.py:353-357 | With an injective serialisation a workflow match holds iff nodes and connections are returned unchanged and the rest only grew. |
| `Preservation.MissingFieldRaises` | packaging/n8n_bootstrap_canary.py:353-357 | A payload without nodes, or without connections once the nodes agree, raises. |
| `Roadmap.FenceLines` | packaging/roadmap_release_gate.py:28-30 | Which lines open a fence of a given kind and length, and which close it (section 4.5 of the CommonMark specification). |
| `Roadmap.TaskBoxReads` | packaging/roadmap_release_gate.py:20-24 | Every line of quotes and blanks, bulleted or numbered markers nested to any depth, a box and a body is read as its state and body. |
| `Roadmap.TaskBoxParses` | packaging/roadmap_release_gate.py:20-24 | Conversely every line read as a task has that form. |
| `Roadmap.GoldIdReads` | packaging/roadmap_release_gate.py:25-27 | A bold identifier is read back iff it ends the body or a space follows. |
| `Roadmap.GoldIdParses` | packaging/roadmap_release_gate.py:25-27 | Conversely every identifier read stands so. |
| `Roadmap.FenceOpeningParses` | packaging/roadmap_release_gate.py:28-30 | Every fence opening has up to three spaces, at least three markers of one kind and an allowed info string. |
| `Roadmap.FenceClosingParses` | packaging/roadmap_release_gate.py:78-81 | Every closing line is blank but for enough of the markers. |
| `Roadmap.TaskLine` | packaging/roadmap_release_gate.py:95-117 | A single task line gives exactly one item with its state, identifier and body, or an error on an unknown state; no task line opens a fence. |
| `Roadmap.PlainLine` | packaging/roadmap_release_gate.py:95-97 | Any other line gives nothing. |
| `Roadmap.FencedBlockIgnored` | packaging/roadmap_release_gate.py:76-94 | A fenced block between two roadmaps that parse contributes nothing but its lines. |
| `Roadmap.UnclosedFence` | packaging/roadmap_release_gate.py:118-123 | A fence that is never closed is an error at its opening line. |
| `Roadmap.RoadmapItems` | packaging/roadmap_release_gate.py:70-124 | The line loop computes the recursive scan, with its errors. |
| `Roadmap.ScanConcat` | packaging/roadmap_release_gate.py:70-124 | Scanning a concatenation is scanning its parts in turn from the fence state reached. |
| `Roadmap.ScanShift` | packaging/roadmap_release_gate.py:75-117 | Only line numbers depend on where scanning starts. |
| `Roadmap.ItemsCompose` | packaging/roadmap_release_gate.py:70-124 | After a prefix that parses, the rest parses as on its own with shifted lines, errors included. |
| `Roadmap.FenceSwallows` | packaging/roadmap_release_gate.py:76-83 | Lines that do not close the fence yield nothing. |
| `Roadmap.FencedTextIrrelevant` | packaging/roadmap_release_gate.py:76-83 | Rewriting such lines changes nothing. |
| `Roadmap.ScanStates` | packaging/roadmap_release_gate.py:98-103 | Every parsed item has one of the four states. |
| `Roadmap.SummaryAddsUp` | packaging/roadmap_release_gate.py:133-153 | total = complete + open + partial, and raw blockers = open + partial. |
| `Roadmap.SummaryCounts` | packaging/roadmap_release_gate.py:133-153 | The summary counts the items by state and identifier, spelled out. |
| `Roadmap.NoTagBlockers` | packaging/roadmap_release_gate.py:149-151 | No tag blocker is left iff every open or partial item is the generated one. |
| `Roadmap.GateDecides` | packaging/roadmap_release_gate.py:191-232 | The release-tag gate passes iff one generated item exists, it is not partial and no tag blocker is left; the strict gate iff everything is complete. |
| `Archive.NormalisedKeepsParts` | packaging/n8n_update_migration_canary.py:54-57 | Normalising a member name keeps its path parts and is idempotent. |
| `Archive.SameNameSameParts` | packaging/n8n_update_migration_canary.py:54-58 | Normalised names are equal iff the parts are. |
| `Archive.RowLeIsTotalOrder` | packaging/n8n_update_migration_canary.py:76-76 | Rows are totally ordered. |
| `Archive.LinesInjective` | packaging/n8n_update_migration_canary.py:76-77 | The digested lines determine the sorted rows. |
| `Archive.ManifestIdentifiesRows` | packaging/n8n_update_migration_canary.py:75-77 | The manifest depends on the rows only, not on their order; with an injective hash it determines them. |
| `Archive.AcceptedManifestsAgree` | packaging/n8n_update_migration_canary.py:45-77 | Two accepted archives have one manifest iff their row sets are equal. |
| `Archive.AcceptedMeans` | packaging/n8n_update_migration_canary.py:45-77 | Every accepted archive: the member and byte bounds, relative names without parent steps or backslashes, no two alike, files and directories only, files of the announced size. |
| `Archive.SameManifestSameContents` | packaging/n8n_update_migration_canary.py:62-77 | With an injective hash one manifest means that each member has a counterpart of the same path, type, size, mode and bytes. |
| `Archive.ReadFile` | packaging/n8n_update_migration_canary.py:62-71 | Chunked reading succeeds iff the content has exactly the declared size, and digests all of it. |
| `Archive.SafeArchiveManifest` | packaging/n8n_update_migration_canary.py:45-77 | Accepts iff the file is admissible and the archive is nonempty, within the member and byte bounds, with safe, relative, unique normalised names and readable contents. |
| `RunSelection.BeforeIsStrictTotalOrder` | packaging/release_gate_contract.py:51-68 | The chronology key is a strict total order. |
| `RunSelection.LatestRun` | packaging/release_gate_contract.py:104-104 | The first maximum, or failure iff some run is not datable. |
| `RunSelection.WorkflowRuns` | packaging/release_gate_contract.py:34-48 | Pages are concatenated in order. |
| `RunSelection.SelectLatestSuccessfulRun` | packaging/release_gate_contract.py:79-146 | The answer is the verdict on the newest exact-head run. |
| `RunSelection.AcceptedRunMeans` | packaging/release_gate_contract.py:79-146 | An accepted run is for the head, completed, successful, completed at most the maximum age ago and at most five minutes ahead, and no run for the head is later. |
| `RunSelection.VerdictMeans` | packaging/release_gate_contract.py:109-146 | The checks pass exactly on such a run. |
| `RunSelection.LatestStartDecides` | packaging/release_gate_contract.py:102-146 | A run for the head that starts later than every other one decides alone. |
| `RunSelection.LaterMeans` | packaging/release_gate_contract.py:51-68 | Later means by start, then completion, then attempt, then id, with the fallbacks between the time fields. |
| `RunSelection.DatedMeans` | packaging/release_gate_contract.py:51-68 | A run can be dated iff it has a start, a completion, an attempt number and an id. |
| `RunSelection.NewestIsUnique` | packaging/release_gate_contract.py:51-104 | With distinct ids there is one newest run. |
| `RunSelection.DistinctIdsAgree` | packaging/release_gate_contract.py:51-104 | Distinct ids make the newest runs agree. |
| `RunSelection.OrderIrrelevant` | packaging/release_gate_contract.py:79-146 | Where the newest runs agree, no permutation or paging changes the answer. |
| `RunSelection.DisagreementDependsOnOrder` | packaging/release_gate_contract.py:104-120 | Where they disagree, two orders give two answers. |
| `RunSelection.StaleRecordDisagrees` | packaging/release_gate_contract.py:104-120 | Two records of one run, one stale, disagree. |
| `RunSelection.OlderRunIrrelevant` | packaging/release_gate_contract.py:102-146 | A datable older run never changes the answer. |
| `RunSelection.NewerRunDecides` | packaging/release_gate_contract.py:102-120 | A newer run that is not completed or not successful always causes rejection. |
| `ReleaseVersion.ReadVersion` | packaging/release_asset_contract.py:27-32 | Whatever the grammar reads is a bounded release that prints back to the text. |
| `ReleaseVersion.ReadShow` | packaging/release_asset_contract.py:27-32 | Every bounded release is read back from its text. |
| `ReleaseVersion.ValidateVersion` | packaging/release_asset_contract.py:39-53 | Accepts iff the text is that of a release with components in 0..99, prerelease number in 0..31, and major or minor nonzero. |
| `ReleaseVersion.VersionsEnd` | packaging/release_asset_contract.py:63-107 | The version inside an asset name is unambiguous, although one version can be a prefix of another. |
| `ReleaseVersion.ValidIsStrict` | packaging/generate_release_manifests.py:21-55 | Every version the asset policy accepts is accepted by the manifest generator. |
| `ReleaseVersion.StrictExactly` | packaging/generate_release_manifests.py:21-55 | The strict grammar as an if-and-only-if: three numerals and an optional list of identifiers, no number padded. |
| `ReleaseVersion.IdentifierMeans` | packaging/generate_release_manifests.py:21-55 | Which characters an identifier has, and when a number is padded. |
| `ReleaseVersion.ShownVersions` | packaging/release_asset_contract.py:27-32 | Two versions as text. |
| `ReleaseVersion.ShownPrereleases` | packaging/release_asset_contract.py:27-32 | Two prereleases as text. |
| `Assets.WithSidecars` | packaging/release_asset_contract.py:56-60 | The name, its digest file and, where demanded, its metadata file, and nothing else. |
| `Assets.ReleaseAccepted` | packaging/release_asset_contract.py:39-53 | Every bounded release with major or minor nonzero has an accepted version. |
| `Assets.NameDetermines` | packaging/release_asset_contract.py:63-107 | An asset name determines version, payload and sidecar. |
| `Assets.CanonicalCount` | packaging/release_asset_contract.py:63-112 | The canonical set has 52 names for every accepted version. |
| `Assets.CanonicalPayloadNames` | packaging/release_asset_contract.py:63-112 | The loops produce the canonical set for every accepted version; the drift check never fires. |
| `Assets.VersionsDisjoint` | packaging/release_asset_contract.py:63-112 | Canonical sets of different versions are disjoint. |
| `Assets.PublicationParts` | packaging/release_asset_contract.py:115-123 | Inputs, signatures and bundles never share a name. |
| `Assets.SetSizes` | packaging/release_asset_contract.py:115-165 | The size of every contract set: publication 161, release-transfer 165. |
| `Assets.TransfersPartition` | packaging/release_asset_contract.py:141-161 | release-transfer is the disjoint union of signing-, minisign- and cosign-transfer. |
| `Assets.PublicationsShare` | packaging/release_asset_contract.py:115-123 | Two versions publish exactly the digest list, the public key and their signatures in common. |
| `Assets.FixedUnpublished` | packaging/release_asset_contract.py:141-161 | The internal hand-over files are never published. |
| `Assets.ExpectedNames` | packaging/release_asset_contract.py:134-165 | Succeeds iff the version is accepted and the set known, with that set; a bad version is reported first. |
| `Assets.TransferSets` | packaging/release_asset_contract.py:141-161 | The files of minisign-transfer and cosign-transfer, by their names. |
| `Assets.InputSets` | packaging/release_asset_contract.py:141-161 | The files of canonical, canonical-policy, signing and signing-transfer. |
| `Assets.ArchiveNames` | packaging/release_asset_contract.py:67-100 | The archive names, one by one. |
| `Assets.LinuxAndWindowsNames` | packaging/release_asset_contract.py:77-95 | The installer and Linux package names. |
| `Assets.AppleAndBundleNames` | packaging/release_asset_contract.py:96-107 | The Apple package and bundle names. |
| `Assets.MetadataFiles` | packaging/release_asset_contract.py:67-107 | Which payloads have a metadata file. |
| `Assets.NativeNamesExact` | packaging/generate_release_manifests.py:134-146 | The required native names are exactly the canonical names that end like a native package. |

## Left out

- Shape checks on decoded JSON and TOML (`isinstance`, missing keys of the wrong type): the model takes typed values; a missing ignore list is an input.
- Message texts of errors, the rendered path of the walk and of the previews.
- Other actors that change the engine during a run, effects that arrive after a command has returned, reuse of ids, containers named like an id, and resolution of id prefixes: the engine model excludes them.
- The rest of the migration canary (installation, backup, copying, content comparison, source cleanup) and its receipts: they add long conjunctions, not custody steps; an own candidate is started and removed in any order instead.
- Custody.Ledger.CreateCandidate: takes the hashed part of the candidate name as a token and derives the `seed` flag from the phase, as both callers do.
- Reading, normalising and finding notice files, `repository_key`, vendor provenance, the display sort and the Markdown of the notices: they are inputs or follow the modelled part; texts and keys are given per crate.
- UTF-8 encoding of texts before hashing, and SHA-256 itself: bytes and a hash function are parameters.
- The replay of the pin patch with git in a scratch directory, the parsing of the receipts, and the checks on the patch text.
- Splitting text into lines, digits outside ASCII in list numbers, and the published-summary marker of the roadmap.
- Decoding of tar headers: members with their chunks are inputs; `json.dumps` is an injective function.
- Parsing of timestamps and case folding in the run selection: both are parameters; `now` always has a timezone.
- NaN and negative zero in JSON numbers: a float is the bit pattern of any other double, so equality of floats is equality of bits.
- The bounded capture of subprocess output, directory comparison and policy files of the asset contract, sidecar verification and rendering in the manifest generator: short checks on file contents.
- Regular-expression engines: each pattern is modelled by the reader or predicate it denotes.
- The other gates and canaries of `packaging/`, and the Rust crates.
