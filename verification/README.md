# Verified model of the delivery, coverage, release and database controls

A Dafny 4.11 model of five independent pieces of the repository, with proofs about them. Check
it with `dafny verify dfyconfig.toml`.

Code the repository writes as loops over mutable state is modelled as methods and classes, each
proved against a specification function or predicate; the theorems are lemmas about those
specifications, over every input or every run. Database tables are classes whose methods are
single-row statements: a statement is accepted exactly when every trigger, CHECK, unique index and
foreign key of the modelled tables accepts it, and otherwise changes nothing.

## Modules

| module | models |
|---|---|
| `Scheduling` | list scheduling on identical machines, longest job first, over exact rationals |
| `Shards`, `ShardBalance` | `assign_files` of the test sharder, and what its plan guarantees |
| `ShardManifests`, `ShardAgreement`, `Execution` | collection, `plan` and `verify`, their agreement, and the execution reports |
| `DependencyGraph`, `Remediation` | the three-colour cycle search and the slice register rules |
| `BlockedChains`, `DeliveryControl`, `DeliveryChecks`, `DeliveryExample` | blocked chains, and the package, item and controller rules, as predicates, as the checks that collect errors, and met by an example |
| `LockClosure` | nearest-`node_modules` resolution and the worklist that selects measured packages |
| `Percentages`, `Ratchet` | exact and rounded coverage floors, and the admission of new baselines |
| `Lcov`, `LcovRoundTrip` | the LCOV reader, and a writer it inverts |
| `Publications`, `PayoutLines`, `SubmissionIntents`, `DensityRevisions` | four database protocols kept by triggers and constraints |
| `ReleaseState`, `Compatibility`, `BackupManifest` | release stages, compatibility receipts and recovery, backup manifests |
| `Orders`, `Text`, `Numbers`, `Wrappers` | sorting, Python string and integer helpers, option and result types |

## What the proofs found

- **Publications may be inserted complete.** The INSERT triggers look only at the write protocol, so
  a publication row inserted in state `complete` is accepted without any write
  (`Publications.InsertedCompleteHasNoReceipt`). An accepted insert keeps the receipt invariant if and
  only if its state is not `complete` (`Publications.InsertKeepsReceiptsUnlessComplete`), and the
  receipts stay in order throughout a run exactly when no such insert is accepted in it
  (`Publications.RunsSafeExactly`). One such insert spoils nothing else: after every run, a complete
  publication has both receipts, unless it was itself inserted complete, and exactly then it has no
  write at all (`Publications.ReceiptsAfterEveryRun`).
- **A row's `id` may be updated while nothing refers to it.** The guards of publications, payout lines
  and submission intents do not list `id` among the immutable columns. The id of a publication can be
  changed exactly while it has no write (`Publications.RenamedExactlyWithoutWrites`), that of a line
  exactly while no line is its retry and no row of the other tables that refer to lines names it
  (`PayoutLines.RenamedExactlyWhileUnreferenced`), and that of an intent
  exactly while it has no attempt and can still be claimed
  (`SubmissionIntents.RenamedExactlyWithoutAttempts`).
- **A package directory directly inside `node_modules/node_modules` is skipped.** Cutting at the last
  separator drops one that overlaps it. Lookups agree with the enclosing directories exactly on paths
  without such an overlap (`LockClosure.NearestExactlyOnCleanPaths`); npm writes no other.
- **A runtime reconciliation skips the coverage floors.** With a positive floor to lose, every accepted
  step keeps every floor if and only if the event's baseline or the one it was refreshed from already
  has version 3 (`Ratchet.FloorsSafeUnlessReconcilable`). It happens at most once, and from version 3 on
  nothing lowers a floor (`Ratchet.NothingLowersVersionThree`).
- **The rounded percentage check is redundant for the tolerances in use**, 0 and 0.3 points. It is
  redundant for a tolerance, counted in ten-thousandths of a point, exactly when that number is even
  or at least 100 points (`Percentages.RoundedCheckIsRedundant`).
- **Validation of backup manifests checks less than building writes.** For every origin and authority
  there are accepted manifests that are not sorted (`BackupManifest.UnsortedIsAccepted`), that expire at
  any time or never (`BackupManifest.MistimedIsAccepted`), and that carry further fields
  (`BackupManifest.ExtraFieldIsAccepted`). Those are the only ways: an accepted manifest is one that some
  build writes exactly when it is sorted, has the creation and expiry its retention gives, and has no
  further field (`BackupManifest.BuiltExactly`).
- **Recovery needs more than an accepted receipt**: the target image and revision must differ from the
  previous ones, among the other conditions collected in `Compatibility.Recoverable`.
- **An outcome recorded as `passed::` names no receipt.** The state machine records any outcome, and
  recovery hands the two empty parts on, which selects the check for unaccepted receipts: evidence is then
  granted recovery only while it is fresh. That and an outcome that names the evidence are the only two
  (`Compatibility.RecoveryExactly`).

## Model

| member | source | states |
|---|---|---|
| Scheduling.LongestFirstBound | scripts/pytest_shard.py:95-120 | Graham's bound: jobs taken longest first, each to a least-loaded machine, leave every machine within 4/3 - 1/(3m) of the heaviest machine of any other schedule on m machines |
| Scheduling.LastBigJobFits | scripts/pytest_shard.py:95-120 | if some schedule meets a bound and the last job is bigger than a third of it, greedy places that job within the bound |
| Scheduling.LightWeight | scripts/pytest_shard.py:95-120 | a machine that meets the bound carries at most weight 2, where jobs that exclude a second one weigh 2 and the others 1 |
| Scheduling.HeavyWeight | scripts/pytest_shard.py:95-120 | a machine too full for one more job of the smallest size carries at least weight 2 |
| Scheduling.ListBound | scripts/pytest_shard.py:95-120 | every machine carries at most total/m + (1 - 1/m) times the largest job |
| Scheduling.LoadsSumToTotal | scripts/pytest_shard.py:114-119 | conservation: the loads of the machines add up to the jobs |
| Scheduling.LongestFirstReachesSeven | scripts/pytest_shard.py:95-120 | the bound is attained on two machines, for 3 3 2 2 2 |
| Scheduling.RivalReachesSix | scripts/pytest_shard.py:95-120 | the rival of that example finishes at 6 |
| Shards.CountTests | scripts/pytest_shard.py:98-104 | the counter's keys are the files in order of first test, and its counts the tests of each |
| Shards.SelectShard | scripts/pytest_shard.py:115-118 | `min` over the shards picks the least weight, then the fewest files, then the lowest index |
| Shards.PlaceFile | scripts/pytest_shard.py:114-119 | one turn of the loop extends exactly one shard's list and weight, the chosen one |
| Shards.Distribute | scripts/pytest_shard.py:111-119 | the loop's lists are those of the recursive schedule |
| Shards.AssignFiles | scripts/pytest_shard.py:95-120 | fails exactly for a shard count below 1 or above the number of files, and otherwise returns the plan |
| Shards.FileOfTest | scripts/pytest_shard.py:98 | the file of `file::test` is the file |
| Shards.FileOfPlain | scripts/pytest_shard.py:98 | a name without `::` is its own file |
| Shards.OneFile | scripts/pytest_shard.py:98-100 | any tests of one file are one file to schedule, counted once each, so a second shard is refused |
| Shards.RecordedPrice | scripts/pytest_shard.py:104-107 | a file with a recorded time is priced at it |
| Shards.UnrecordedPrice | scripts/pytest_shard.py:103-107 | a file without one is priced by its tests at the median pace, or one each without timings |
| Shards.MedianIsMiddle | scripts/pytest_shard.py:103 | twice the median is the sum of the two middle values of any sorted arrangement |
| Shards.TakenByPriceThenName | scripts/pytest_shard.py:109 | files are taken by falling price, and by name at one price |
| Shards.AssignmentIgnoresOrder | scripts/pytest_shard.py:95-120 | collections of the same tests in any order have the same plan |
| ShardBalance.ChoicesGreedy | scripts/pytest_shard.py:115-118 | the chosen shard never carries more than another when it is chosen, ties included |
| ShardBalance.AssignmentWithinFourThirds | scripts/pytest_shard.py:95-120 | the 4/3 - 1/(3m) bound for the shards `assign_files` returns, against any assignment of the same files |
| ShardBalance.AssignmentNearAverage | scripts/pytest_shard.py:95-120 | each returned shard costs at most the average plus (1 - 1/m) of the dearest file |
| ShardBalance.EveryShardHasFiles | scripts/pytest_shard.py:95-120 | no shard is empty, even when every file costs nothing |
| ShardBalance.ShardsAreDisjoint | scripts/pytest_shard.py:95-120 | a file in one shard is a collected file and in no other shard |
| ShardBalance.EveryFileIsAssigned | scripts/pytest_shard.py:95-120 | every collected file is in some shard |
| ShardBalance.ShardsAreSorted | scripts/pytest_shard.py:120 | each shard is sorted and repeats nothing |
| ShardManifests.ParseCollected | scripts/pytest_shard.py:34-48 | accepts exactly collectable output, and returns its node ids sorted and distinct |
| ShardManifests.CollectedMeans | scripts/pytest_shard.py:35-39 | the collected tests are the stripped lines that start below `tests/` and contain `::` |
| ShardManifests.CollectableMeans | scripts/pytest_shard.py:40-47 | they are accepted exactly when there are some, none repeats, and each file ends in `.py` on one line |
| ShardManifests.Plan | scripts/pytest_shard.py:138-171 | succeeds exactly for a full commit id and an index below an admissible count, and writes that shard's manifest |
| ShardManifests.LoadManifests | scripts/pytest_shard.py:254-275 | succeeds exactly when no shard index repeats, and indexes the manifests |
| ShardManifests.CheckShard | scripts/pytest_shard.py:278-325 | one turn of the loop accepts exactly a shard that is sound by itself and disjoint from those before it |
| ShardManifests.CheckShards | scripts/pytest_shard.py:278-325 | the loop accepts exactly pairwise disjoint sound shards, and gathers their tests and files |
| ShardManifests.VerifyPartition | scripts/pytest_shard.py:276-371 | accepts exactly the shards that partition the inventory, with a receipt whose counts add up |
| ShardManifests.Verify | scripts/pytest_shard.py:249-371 | accepts exactly the artifact sets the partition rules allow; the receipt's totals are the sums of its per-shard counts and the size of the inventory |
| ShardAgreement.PlannedManifestsAreAccepted | scripts/pytest_shard.py:138-171 | the checker accepts the planned manifests, in any order, for every inventory and admissible count |
| ShardAgreement.PlannedPartition | scripts/pytest_shard.py:276-340 | the planned shards pass each partition check |
| ShardAgreement.AcceptedShardsPartition | scripts/pytest_shard.py:249-340 | whatever is accepted runs each inventoried test in exactly one shard, with every other test of its file, and nothing else |
| ShardAgreement.SameFileSameShard | scripts/pytest_shard.py:300-325 | two tests of one file run in the same shard |
| ShardAgreement.TestsOfOneFileTogether | scripts/pytest_shard.py:249-340 | on the texts: `f::t` and `f::u` run in one accepted shard that lists `f`, and no other shard has either |
| ShardAgreement.AcceptedManifestsAgree | scripts/pytest_shard.py:249-325 | what accepted manifests say alike, and that each lists exactly the files of its tests, sorted |
| Execution.VerifyExecution | scripts/pytest_shard.py:193-219 | a report is accepted exactly when its cases are the assigned tests, each once, all successful, with consistent counts |
| Execution.SameInventory | scripts/pytest_shard.py:205-208 | the test by sizes and sets accepts exactly the rearrangements of the assigned tests |
| Execution.IdentityOfTest | scripts/pytest_shard.py:184-190 | `path.py::Class::test[params]` is reported as the dotted path and class, and the test with its parameters |
| Execution.CasesOfSuites | scripts/pytest_shard.py:206 | the cases of a report are those of its suites, in order |
| Execution.VerifyRun | scripts/pytest_shard.py:249-371 | `verify` with its execution reports: the counts executed add up to the inventory and to the cases reported |
| Execution.EveryTestRanOnce | scripts/pytest_shard.py:193-371 | in an accepted run each collected test is one successful case in the report of its one shard |
| DependencyGraph.CycleSearch.Visit | scripts/validate_progress.py:702-714 | a visit restores the visiting set, loses no finished id and no error, and without a new error finishes its id |
| DependencyGraph.CycleSearch.VisitAll | scripts/validate_progress.py:699-716 | a cycle is reported if and only if the graph on known ids has one; otherwise the finishing order is topological; every reported id lies on a cycle |
| DependencyGraph.StackClosesCycle | scripts/validate_progress.py:703-705 | an id met while being visited lies on a cycle made of the recursion stack |
| DependencyGraph.TopologicalMeansAcyclic | scripts/validate_progress.py:699-716 | a finishing order in which dependencies come first rules out cycles |
| DependencyGraph.LongPathHasCycle | scripts/validate_progress.py:699-716 | a path longer than the graph contains a cycle |
| DependencyGraph.ClosedSetHasCycle | scripts/validate_progress.py:776-788 | if each member of a non-empty set depends on another member, there is a cycle |
| Remediation.CheckRegister | scripts/validate_progress.py:670-788 | no error is appended exactly when the register keeps every slice rule, acyclicity included |
| Remediation.ReceiptsAreStages | scripts/validate_progress.py:718-774 | receipts are earned in order: they are accepted exactly when plan review, diff review and checkpoint have passed up to one stage that the status allows |
| Remediation.TransitiveDependenciesComplete | scripts/validate_progress.py:776-788 | everything an ACTIVE or COMPLETE slice depends on, at any distance, is COMPLETE |
| Remediation.NothingRunnableMeansComplete | scripts/validate_progress.py:1141-1145 | with nothing ACTIVE and nothing runnable, every slice is COMPLETE |
| Remediation.QueuedWaits | scripts/validate_progress.py:1141-1145 | a queued slice that cannot run depends on another queued slice |
| Remediation.RunnableMeans | scripts/validate_progress.py:1141-1145 | a slice is runnable exactly when it is QUEUED and each dependency is the id of a COMPLETE row |
| BlockedChains.Checklist.BlockerIdsAreReachable | scripts/validate_progress.py:1044-1057 | `blocker_ids` is exactly the set of inputs named by blocked items reachable through open items, on cyclic registers too |
| BlockedChains.Checklist.BlockedChainIsReachability | scripts/validate_progress.py:1027-1042 | `blocked_chain` holds exactly when open items lead to a blocked one |
| BlockedChains.Checklist.ChainIffBlockers | scripts/validate_progress.py:1027-1057 | `blocked_chain` holds exactly when `blocker_ids` is not empty, from any `seen` |
| BlockedChains.Checklist.PathIsBlamed | scripts/validate_progress.py:1044-1057 | the copied `seen` set loses no path |
| BlockedChains.Checklist.BlameHasPath | scripts/validate_progress.py:1044-1057 | each input found is named at the end of such a path |
| DeliveryChecks.CheckDocument | scripts/validate_progress.py:670-1287 | no error is appended exactly for the documents `DeliveryControl.Accepted` describes |
| DeliveryChecks.CheckItem | scripts/validate_progress.py:1059-1098 | an item passes exactly when its status fits its dependencies, its inputs and the inputs it names |
| DeliveryChecks.CheckPackage | scripts/validate_progress.py:1104-1139 | a package passes exactly when its status fits its items, or its slices for PKG-10 |
| DeliveryChecks.CheckController | scripts/validate_progress.py:1147-1287 | the branch on the number of active packages accepts exactly the three controller states |
| DeliveryControl.PausedMeansRemediationFinished | scripts/validate_progress.py:1104-1283 | in an accepted document with a PAUSED controller every slice is COMPLETE and PKG-10 is DONE |
| DeliveryControl.PausedForRealBlocker | scripts/validate_progress.py:1238-1283 | the input a controller is paused for is missing, and open items lead from the checkpoint to an item blocked on it |
| DeliveryControl.RemediationNeverStalls | scripts/validate_progress.py:1104-1145 | in an accepted document PKG-10 is DONE or some slice is ACTIVE or runnable |
| DeliveryControl.RunnableMeans | scripts/validate_progress.py:1011-1025 | an item is runnable exactly when it is TODO and neither a dependency nor an input is missing |
| DeliveryControl.ActiveCheckpointCanStart | scripts/validate_progress.py:1147-1211 | the checkpoint of an active package is a TODO of it whose dependencies are DONE and whose inputs are PRESENT, unless the package is being closed |
| DeliveryControl.ActiveSliceCanStart | scripts/validate_progress.py:1168-1185 | the checkpoint of an active PKG-10 is ACTIVE, or QUEUED with every dependency COMPLETE |
| DeliveryControl.BlockedPackageWaits | scripts/validate_progress.py:1126-1139 | in a BLOCKED package something is left and each TODO waits for a dependency or an input |
| DeliveryControl.PausedMeansEverythingWaits | scripts/validate_progress.py:1234-1283 | while paused each TODO waits, and the packages around the pointed one are at rest |
| DeliveryControl.DoneItems | scripts/validate_progress.py:1061-1081 | a DONE item depends on DONE items and PRESENT inputs only |
| DeliveryControl.BlockedItems | scripts/validate_progress.py:1082-1098 | a blocked status lists exactly the MISSING inputs of its item |
| DeliveryControl.OrdinaryPackagesExactly | scripts/validate_progress.py:1104-1139 | exactly which statuses of an ordinary package the rules accept |
| DeliveryControl.RemediationPackageExactly | scripts/validate_progress.py:1105-1125 | exactly which statuses of PKG-10 the rules accept |
| DeliveryControl.SliceCheckpointExactly | scripts/validate_progress.py:1168-1185 | exactly which slices may be the checkpoint |
| DeliveryControl.ItemCheckpointExactly | scripts/validate_progress.py:1187-1211 | exactly which items may be the checkpoint of a package |
| DeliveryExample.PausedDocumentIsAccepted | scripts/validate_progress.py:1212-1283 | the rules can be met with a paused controller, so the theorems about one are not vacuous |
| LockClosure.Locate | scripts/check_changed_coverage.py:776-788 | the upward loop finds the entry of the nearest enclosing `node_modules` |
| LockClosure.ResolveIsNearest | scripts/check_changed_coverage.py:776-788 | on clean paths a name resolves to its candidate at the longest enclosing prefix that has one, and to nothing exactly when none has |
| LockClosure.NearestExactlyOnCleanPaths | scripts/check_changed_coverage.py:776-788 | lookups agree with the enclosing directories, for every lock and name, exactly on paths whose separators do not overlap |
| LockClosure.DirectoriesInOrder | scripts/check_changed_coverage.py:776-788 | own directory first, then the enclosing package, then the root |
| LockClosure.RequirementsMean | scripts/check_changed_coverage.py:808-822 | which names an entry asks for, and which of them may be missing |
| LockClosure.ReachableIsUsable | scripts/check_changed_coverage.py:790-825 | in a sound lock reachable entries have versions, are no links, and find all they cannot do without |
| LockClosure.ToolsAreRoots | scripts/check_changed_coverage.py:790-798 | the four measurement tools are the roots |
| LockClosure.SelectPackages | scripts/check_changed_coverage.py:790-825 | taking entries in any order, the worklist ends within as many turns as there are tools and names in the lock, fails exactly on an unsound lock, and selects exactly the entries reachable from the tools |
| LockClosure.UnprobedEntriesAreIrrelevant | scripts/check_changed_coverage.py:773-825 | locks that agree wherever a lookup probes give the same verdict, packages and records |
| LockClosure.SameChains | scripts/check_changed_coverage.py:776-825 | resolution chains of one such lock are chains of the other |
| LockClosure.Complete | scripts/check_changed_coverage.py:799-825 | an empty worklist means everything reachable is selected |
| Percentages.RoundedCheckIsImplied | scripts/check_changed_coverage.py:479-512 | with an even tolerance the rounded check never rejects what the exact check accepts |
| Percentages.OddToleranceFails | scripts/check_changed_coverage.py:479-512 | for each odd tolerance below 100 points, counts on which it does |
| Percentages.RoundedCheckIsRedundant | scripts/check_changed_coverage.py:479-512 | exactly which tolerances make the rounded check redundant |
| Percentages.FloorsCompose | scripts/check_changed_coverage.py:479-512 | a measurement near a floor that was never lowered is as near to the earlier floor |
| Ratchet.TolerancePoints | scripts/check_changed_coverage.py:29 | the tolerance is 0.3 points |
| Ratchet.VersionThreeStays | scripts/check_changed_coverage.py:1007-1014 | after version 3 the version stays 3 and no step reconciles the runtime |
| Ratchet.FloorsNeverFall | scripts/check_changed_coverage.py:1189-1241 | an accepted step that reconciles nothing keeps or raises each exact ratio |
| Ratchet.MeasurementNearFloors | scripts/check_changed_coverage.py:1074-1092 | the measurement behind a step is within the tolerance of the floors it leaves, and of those it found unless it reconciles the runtime |
| Ratchet.ReconciledAtMostOnce | scripts/check_changed_coverage.py:1001-1016 | at most one step of any chain reconciles, and the version is 3 ever after |
| Ratchet.FloorsRise | scripts/check_changed_coverage.py:1189-1241 | between reconciliations no floor of any earlier baseline is ever lowered |
| Ratchet.ToleranceNeverAccumulates | scripts/check_changed_coverage.py:1074-1092 | a measurement is within 0.3 points of the floors of every baseline since the last reconciliation |
| Ratchet.NothingLowersVersionThree | scripts/check_changed_coverage.py:1001-1092 | from a baseline of version 3 on, without further condition, floors never fall and every measurement stays within 0.3 points of them |
| Ratchet.ReconciliationMayLowerFloors | scripts/check_changed_coverage.py:1076-1092 | over any two unreconciled baselines an accepted candidate that covers nothing |
| Ratchet.FloorsSafeUnlessReconcilable | scripts/check_changed_coverage.py:1001-1016 | floors are safe from every accepted step exactly when one of the two baselines has version 3 |
| Ratchet.RefreshIsAdmitted | scripts/check_changed_coverage.py:1126-1241 | what `--refresh-baseline` writes, whatever baseline the working tree holds, is accepted when the same evidence is verified |
| Ratchet.ReceiptBindsEvidence | scripts/check_changed_coverage.py:1165-1232 | a changed baseline records the commit, inventory, policy, sources, paths and runtime it is verified with |
| Ratchet.RatiosComeFromEvidence | scripts/check_changed_coverage.py:1115-1130 | its ratios are the measured ones, the kept ones of unchanged sources, or adopted ones with the measured totals |
| Ratchet.RuntimeStays | scripts/check_changed_coverage.py:1017-1025 | from version 3 on the runtime never changes and every step is measured on it |
| Lcov.Parse | scripts/check_changed_coverage.py:146-188 | the loop over the lines of the text accepts exactly a complete, non-empty scan, and returns its records |
| Lcov.AcceptedReportIsConsistent | scripts/check_changed_coverage.py:146-246 | each accepted source is opened once, its counts are valid, and each declared total is the recomputed one |
| Lcov.RecordLineAddsOne | scripts/check_changed_coverage.py:191-230 | a data line adds one line or branch that was not there, and a total is given once |
| Lcov.CoveredCounts | scripts/check_changed_coverage.py:233-246 | a line counts as covered when hit at all, a branch when taken at all |
| Lcov.OtherLines | scripts/check_changed_coverage.py:222-230 | function lines are read over, unknown ones refused |
| LcovRoundTrip.RenderThenRead | scripts/check_changed_coverage.py:146-246 | writing any records as text, each under any path that resolves to its source, in any order of sources, lines and branches, and reading the text gives the same map |
| LcovRoundTrip.RenderThenScan | scripts/check_changed_coverage.py:146-246 | the same, line by line |
| LcovRoundTrip.ReadableExactlyRenderable | scripts/check_changed_coverage.py:146-246 | some text is read as the given map if and only if each of its records can be written for its source |
| LcovRoundTrip.EveryReportIsRenderable | scripts/check_changed_coverage.py:146-246 | every map of valid records can be written |
| LcovRoundTrip.EntryScan | scripts/check_changed_coverage.py:155-185 | reading one written record adds exactly that record |
| LcovRoundTrip.BranchTextReads | scripts/check_changed_coverage.py:203-221 | a written branch line reads back, its branch name included |
| Publications.Tables.Update | alembic/versions/0106_development_baseline.py:373-396 | an update of a publication is accepted exactly under its triggers and constraints, and changes that row only |
| Publications.Tables.Register | alembic/versions/0106_development_baseline.py:400-425 | searching for the new row alone decides the table-wide rules: a write is accepted exactly when they all hold after it, which keeps the tables consistent |
| Publications.Tables.Settle | alembic/versions/0106_development_baseline.py:400-425 | a write is settled or marked uncertain once, and nothing else about it changes |
| Publications.InsertKeepsReceiptsUnlessComplete | alembic/versions/0106_development_baseline.py:377-382 | an accepted insert keeps the receipts in order exactly when it is not inserted complete |
| Publications.RunsSafeExactly | alembic/versions/0106_development_baseline.py:373-425 | the receipts stay in order throughout a run exactly when no publication is inserted complete in it |
| Publications.InsertedCompleteHasNoReceipt | alembic/versions/0106_development_baseline.py:377-382 | an insert in state complete is accepted without any write |
| Publications.ReceiptsAfterEveryRun | alembic/versions/0106_development_baseline.py:373-396 | after every run cleaning and cleaned publications have settled writes only; a complete one has a settled csv, a settled pdf and no other write, or was inserted complete and has none |
| Publications.OneLiveGeneration | alembic/versions/0106_development_baseline.py:5967 | after every run an issuance has at most one live generation, and its generations have distinct numbers |
| Publications.CompleteForever | alembic/versions/0106_development_baseline.py:373-425 | whatever else is done, a complete publication with settled writes stays complete with exactly those writes, unchanged |
| Publications.CompleteAfterEveryRun | alembic/versions/0106_development_baseline.py:373-425 | so whatever is complete at any point of a run from empty tables is so ever after |
| Publications.UncertainBlocksForever | alembic/versions/0106_development_baseline.py:387-394 | an uncertain write stays, and keeps a publication not yet past publishing or abandoned out of complete, cleaning and cleaned for ever |
| Publications.UncertainBlocksEveryRun | alembic/versions/0106_development_baseline.py:373-425 | so in every run from empty tables one uncertain write blocks its publication from then on |
| Publications.RenamedExactlyWithoutWrites | alembic/versions/0106_development_baseline.py:813 | the id of a publication can be updated exactly while it has no write |
| Publications.MovesExactly | alembic/versions/0106_development_baseline.py:813 | in every consistent database the state changes exactly along seven moves, and to the terminal states exactly when the writes allow |
| Publications.PreparedExactlyWhenNoneLive | alembic/versions/0106_development_baseline.py:5967 | a publication can be prepared exactly while its issuance has no live one |
| Publications.RegisteredExactlyWhilePublishing | alembic/versions/0106_development_baseline.py:400-425 | a write of a format can be registered exactly while publishing and once |
| Publications.SettledExactlyOnce | alembic/versions/0106_development_baseline.py:400-425 | a write can be settled or marked uncertain exactly once |
| Publications.PublishingCanComplete | alembic/versions/0106_development_baseline.py:373-425 | a run that prepares, publishes, writes, settles and completes a publication of any issuance |
| Publications.ColumnsFollowState | alembic/versions/0106_development_baseline.py:3421-3441 | which columns are filled follows the state, after every run |
| Publications.WriteColumnsFollowState | alembic/versions/0106_development_baseline.py:3445-3455 | likewise for writes |
| Publications.ObjectKeysAreNeverShared | alembic/versions/0106_development_baseline.py:4949-4962 | no two publications share an object key |
| PayoutLines.Lines.InsertLine | alembic/versions/0106_development_baseline.py:2930-2955 | a line is accepted exactly when it fits the CHECKs, the unique indexes and the foreign key, and is then appended |
| PayoutLines.Lines.UpdateLine | alembic/versions/0106_development_baseline.py:232-276 | an update is accepted exactly under the guard and the constraints, and changes that row only |
| PayoutLines.ChainsAreDisjointPaths | alembic/versions/0106_development_baseline.py:7145-7146 | after every run each line has one root, and two share it exactly when one is a retry of the other |
| PayoutLines.ChainsGrowAtTails | alembic/versions/0106_development_baseline.py:5952 | an accepted retry names an existing line that nothing retries yet |
| PayoutLines.ParentsForever | alembic/versions/0106_development_baseline.py:232-248 | which line is the predecessor of which never changes, in any run |
| PayoutLines.RootsForever | alembic/versions/0106_development_baseline.py:232-248 | so roots never change |
| PayoutLines.OneActiveLinePerEntry | alembic/versions/0106_development_baseline.py:5949-5955 | at most one active line per ledger entry, active means reserved or submitted, and no two lines share a reference |
| PayoutLines.ReferenceForever | alembic/versions/0106_development_baseline.py:257-272 | a reference never changes and a released reservation is never taken again |
| PayoutLines.ReferenceWrittenAtSubmission | alembic/versions/0106_development_baseline.py:257-265 | a gained reference was written by one accepted submission of a reserved line |
| PayoutLines.RenamedExactlyWhileUnreferenced | alembic/versions/0106_development_baseline.py:232-248 | the id of a line can be updated exactly while no line is its retry and no other table refers to it |
| PayoutLines.MovesExactly | alembic/versions/0106_development_baseline.py:249-256 | in every valid table the status changes exactly along five moves |
| PayoutLines.ReservedExactly | alembic/versions/0106_development_baseline.py:5949-5952 | a line can be reserved for an entry exactly while the entry has no active line, and as a retry exactly of a tail |
| PayoutLines.ColumnsFollowStatus | alembic/versions/0106_development_baseline.py:2930-2955 | activity and reference follow the status, after every run |
| SubmissionIntents.Tables.Update | alembic/versions/0106_development_baseline.py:309-346 | an update of an intent is accepted exactly under the guard and the constraints, and changes that row only |
| SubmissionIntents.Tables.Attempt | alembic/versions/0106_development_baseline.py:4865-4873 | searching for the new row alone decides the table-wide rules: an attempt is accepted exactly when they all hold after it, which keeps the tables consistent |
| SubmissionIntents.Tables.Observe | alembic/versions/0106_development_baseline.py:7157-7158 | looking the attempt up by id decides the composite foreign key: an observation is accepted exactly when it repeats an attempt and is its only one |
| SubmissionIntents.GenerationCountsClaims | alembic/versions/0106_development_baseline.py:331-341 | in every run the generation grows by exactly the claims made |
| SubmissionIntents.GenerationIsClaimCount | alembic/versions/0106_development_baseline.py:309-346 | in every run from empty tables the generation is the inserted one plus the claims made; inserted pending, a claimed, query-only or resolved intent has been claimed |
| SubmissionIntents.SupersededGenerationIsFenced | alembic/versions/0106_development_baseline.py:331-341 | an update with a superseded generation is refused after every later run |
| SubmissionIntents.OneOutcomePerGeneration | alembic/versions/0106_development_baseline.py:331-341 | each generation is released or resolved at most once |
| SubmissionIntents.FinalStatesAbsorb | alembic/versions/0106_development_baseline.py:331-341 | resolved and cancelled rows never change |
| SubmissionIntents.OneAttemptAndObservation | alembic/versions/0106_development_baseline.py:4870-4894 | each generation has at most one attempt and one observation, the latter bound to the former |
| SubmissionIntents.AttemptedIntentKeepsId | alembic/versions/0106_development_baseline.py:309-329 | an intent with an attempt keeps its id |
| SubmissionIntents.RenamedExactlyWithoutAttempts | alembic/versions/0106_development_baseline.py:309-346 | the id of an intent can be updated exactly while it has no attempt and can still be claimed |
| SubmissionIntents.MovesExactly | alembic/versions/0106_development_baseline.py:331-341 | in every consistent database the state changes exactly along seven moves, and the generation exactly with claims |
| SubmissionIntents.RequestedExactly | alembic/versions/0106_development_baseline.py:4878-4886 | a submission can be requested exactly under an unused id, line and key |
| SubmissionIntents.AttemptedExactlyOnce | alembic/versions/0106_development_baseline.py:4865-4873 | a generation of an existing intent can be attempted exactly once |
| SubmissionIntents.ObservedExactlyOnce | alembic/versions/0106_development_baseline.py:4886-4894 | an attempt can be observed exactly once, with any outcome |
| SubmissionIntents.ColumnsFollowState | alembic/versions/0106_development_baseline.py:3190-3210 | claim, reference and resolution columns follow the state, after every run |
| SubmissionIntents.ObservationsSayWhatWasFound | alembic/versions/0106_development_baseline.py:3212-3224 | an observation has a reference exactly when it found one, and repeats its attempt |
| SubmissionIntents.NothingIsShared | alembic/versions/0106_development_baseline.py:4875-4886 | no two intents share a line, key, token or reference |
| DensityRevisions.Profiles.InsertProfile | alembic/versions/0106_development_baseline.py:935-968 | a revision is accepted exactly under its trigger and constraints, and is appended |
| DensityRevisions.Profiles.UpdateProfile | alembic/versions/0106_development_baseline.py:816-831 | an update is accepted exactly when it leaves the revision's values alone |
| DensityRevisions.LineageIsOneChain | alembic/versions/0106_development_baseline.py:935-968 | after every run a lineage's revisions are exactly 1..n, one row each, linked as one chain |
| DensityRevisions.EffectiveTimesIncrease | alembic/versions/0106_development_baseline.py:959-965 | later revisions take effect strictly later |
| DensityRevisions.OneGoverningRevision | alembic/versions/0106_development_baseline.py:935-968 | each instant has a governing revision exactly from the first effective time on, and only one |
| DensityRevisions.RevisionsForever | alembic/versions/0106_development_baseline.py:816-831 | a published revision keeps its values in every later run |
| DensityRevisions.BegunExactly | alembic/versions/0106_development_baseline.py:939-946 | a lineage can be begun exactly under an unused id |
| DensityRevisions.PublishedExactly | alembic/versions/0106_development_baseline.py:948-966 | a revision can be published exactly as the next of its lineage, taking effect later |
| DensityRevisions.DefaultExactly | alembic/versions/0106_development_baseline.py:5976 | a profile can be made the active default exactly while no other is |
| ReleaseState.StateFile.Initialise | scripts/release_contract.py:1602-1633 | init accepts exactly a well-formed identity that agrees with an existing state, and otherwise leaves the file alone |
| ReleaseState.StateFile.Record | scripts/release_contract.py:1636-1659 | advance accepts exactly the next stage or a retry of a recorded one, and a retry writes nothing new |
| ReleaseState.ReachableStatesAreOrdered | scripts/release_contract.py:816-830 | in every reachable state the stages are a prefix of the stage order and the events record exactly them |
| ReleaseState.OutcomesAreWrittenOnce | scripts/release_contract.py:1636-1659 | identities never change and recorded events keep place and outcome, in every later run |
| ReleaseState.CompatibilityImpliesMigration | scripts/recovery_authority.py:116-125 | a compatibility outcome is recorded at most once, and only after migration |
| ReleaseState.AdvanceExactly | scripts/release_contract.py:1636-1659 | advance succeeds exactly up to the next stage, records what it was given, and changes nothing for an earlier stage |
| ReleaseState.EventsComeFromCommands | scripts/release_contract.py:1646-1655 | each recorded event carries the outcome and time of the first advance for its stage |
| ReleaseState.ReleaseCanFinish | scripts/release_contract.py:1602-1659 | every well-formed release can be carried through with any outcomes |
| Compatibility.FreshForHalfAnHour | scripts/release_contract.py:1028-1145 | a built receipt is accepted unanchored exactly from its generation to 30 minutes later |
| Compatibility.AcceptedForEver | scripts/release_contract.py:862-884 | with its accepted digest and signature it is accepted exactly from its generation on, without end |
| Compatibility.BuiltExactly | scripts/release_contract.py:963-1025 | exactly when a receipt can be built, probes and predecessor included |
| Compatibility.BuiltSays | scripts/release_contract.py:963-1025 | a built receipt is for the given release, instant, key and probes |
| Compatibility.EvidenceBindsIdentities | scripts/release_contract.py:1028-1145 | evidence is good for one release and one key only |
| Compatibility.AcceptanceCovers | scripts/release_contract.py:862-884 | an acceptance signature covers the receipt, the target and the key |
| Compatibility.AdmittedOutcomes | scripts/recovery_authority.py:119-134 | which recorded outcomes admit which evidence, for any of either |
| Compatibility.RecoveryExactly | scripts/recovery_authority.py:75-160 | from every reachable state, whatever outcome it recorded and whatever the evidence, exactly when recovery is granted |
| Compatibility.RecoveredAuthority | scripts/recovery_authority.py:138-160 | the issued authority is for exactly the requested identities, those of the recorded state, and for the evidence the outcome names |
| Compatibility.RecoveryOnBuiltReceipt | scripts/recovery_authority.py:75-160 | for a built receipt: from its generation on, for ever once its acceptance is recorded, for half an hour under an unanchored outcome |
| Compatibility.RecoveryOnlyForRecordedReceipt | scripts/recovery_authority.py:105-160 | where a built receipt's acceptance is recorded, recovery is granted on a piece of evidence exactly when it is that receipt, not from the future, and the request is recoverable |
| Compatibility.OutcomeParts | scripts/recovery_authority.py:105-135 | the recorded outcome splits back into `passed`, the digest and the signature |
| Compatibility.RecoveryNeverExpires | scripts/recovery_authority.py:75-160 | from every reachable state with the recorded acceptance, recovery is granted exactly when the receipt is not from the future and the request is recoverable |
| BackupManifest.ValidateObjects | scripts/release_contract.py:1212-1225 | the loop accepts exactly inventories of valid entries with unique identities |
| BackupManifest.Validate | scripts/release_contract.py:1185-1229 | accepts exactly acceptable manifests, and returns them unchanged |
| BackupManifest.Build | scripts/release_contract.py:1148-1182 | succeeds exactly on recordable backups, with a manifest that validates again and whose totals are those of the objects as listed |
| BackupManifest.BuiltTotals | scripts/release_contract.py:1162-1178 | the manifest lists the same objects, sorted, with their count and bytes |
| BackupManifest.ListedByKeyThenVersion | scripts/release_contract.py:1162 | objects are listed by key, then by version |
| BackupManifest.RetentionIsKept | scripts/release_contract.py:1161-1180 | a manifest expires its retention after its creation, at least one day and at most 35 |
| BackupManifest.RecordableOrigins | scripts/release_contract.py:1185-1211 | exactly which origins a backup can be recorded for |
| BackupManifest.InventoryOrderIsIrrelevant | scripts/release_contract.py:1148-1182 | two orders of the same objects are both rejected or give the same manifest |
| BackupManifest.SameManifestSameInventory | scripts/release_contract.py:1148-1182 | an accepted manifest determines its origin, instants and objects, and is determined by them |
| BackupManifest.BuiltExactly | scripts/release_contract.py:1148-1229 | exactly which accepted manifests some build writes |
| BackupManifest.UnsortedIsAccepted | scripts/release_contract.py:1185-1229 | for every origin and authority, an accepted manifest whose only difference is the order of its objects |
| BackupManifest.MistimedIsAccepted | scripts/release_contract.py:1185-1229 | for every origin, authority and expiry text, or none, an accepted manifest with that expiry |
| BackupManifest.ExtraFieldIsAccepted | scripts/release_contract.py:1185-1229 | for every origin, authority and further fields, an accepted manifest with those fields |

## Left out

- Floating point: shard costs and weights are exact reals, percentages exact ratios rounded half to even to ten-thousandths of a point; binary rounding is not modelled.
- Files, JSON decoding, subprocesses, git, Docker, command lines, environment variables and clocks: their results are parameters, and a value of the wrong JSON type is not modelled.
- SHA-256, HMAC and canonical JSON are uninterpreted functions; the formats of identifiers, images and secrets are uninterpreted predicates.
- Timestamps are integers, in microseconds; how backup manifests read and write them is uninterpreted, elsewhere their textual forms, time zones and range limits are not modelled.
- Non-ASCII decimal digits, which Python's `int` and `str.isdecimal` also accept.
- `scripts/pytest_shard.py`: the collection subprocess, `import_timings`, `finalize` and the raw coverage files; timings arrive as validated records, reports as parsed XML.
- ShardManifests.Verify: without the coverage files and execution reports; `Execution.VerifyRun` adds the latter, checked after all manifests instead of shard by shard.
- `scripts/validate_progress.py`: the Markdown tables, the hard-coded register contents, authority views, package prerequisites, cards, cadence and capacity rules; registers are arbitrary ones that satisfy the checks. The error texts are abbreviated, and only their absence is specified.
- `scripts/check_changed_coverage.py`: eligibility, instrumentation, workflow reading, changed-line floors and sensitive groups; source paths are resolved by a parameter of the LCOV model, and baselines carry percentages as integers in ten-thousandths.
- Ratchet.MeasurementNearFloors: the floors a reconciliation replaces are left out, since the code does not check them.
- Ratchet.FloorsRise: holds between reconciliations, since one may lower a floor.
- Ratchet.ToleranceNeverAccumulates: for the baselines since the last reconciliation, for the same reason.
- DeliveryChecks.CheckDocument: does not check the parts of `scripts/validate_progress.py` left out above, which are tables of fixed contents.
- PayoutLines.Lines.UpdateLine: without the foreign keys of other tables, which only forbid further changes of `id`; `PayoutLines.RenamedExactlyWhileUnreferenced` takes them as the set of ids referred to.
- SubmissionIntents.Tables.Request: without the foreign key of an intent to its payout line, which is a table of another module; the results hold with it and without it.
- Database columns that no guard or constraint reads, length limits, foreign keys to tables that are not modelled, privileges, partitions, multi-row statements, concurrent transactions and later migrations.
- `scripts/release_contract.py`: configuration, topology and secret validation, bundle signing, deferred capabilities and backup authority; `build_overlay` is modelled for the recovery scope, up to its signature.
