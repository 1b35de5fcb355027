# Verified model of the appliance's control logic

This project models the stdlib-only state machines and transformations of an LLM-serving appliance and
proves properties of them in Dafny. `dafny verify dfyconfig.toml` checks all of it.

Where the source changes something step by step, the model is a method or a class with the source's loops
and branches, proved to compute a specification function; what the source promises is then proved about
that function, for all inputs and over whole runs.

**Configuration transactions** (`scripts/glm_config.py`, `scripts/config_cli.py`, `landing.py`).
`Knobs` is the registry, left abstract; `Coercion` shows that the declared knob types meet what is asked of
it, `CoercionLaws` what each accepts. `Resolution` folds the six layers and the two coupling passes and
`Precedence` says which layer wins; `Minimization` is the diff; `RoundTrip`, `DiffLaws` and `ProfileSwitch`
relate the two. `Transactions` is the protocol between PID 1 and the dashboard on the shared files,
`TransactionLaws` what each command does to what is in force; `TransactionRuns` and `RollbackRuns` are about
every interleaving. `SampleRegistry`, `PrecedenceExample` and `RollbackLoop` hold a concrete registry and
the failing submissions and runs.

**Resumable patches** (`scripts/apply_field_review_patches.py`). `Patches` and `Chains` are the planning
and its commutation argument, `ChainPlanner` the in-place algorithm; `Snapshots`, `PatchRuns`, `PatchPlans`
and `PatchInstaller` are the preflight, and runs killed between components; `InstalledFiles` says what a
manifest asks of every file, without its chains.

**SOUL controller** (`scripts/soul_controller.py`, `scripts/soul_config.py`). `Incidents` is the book,
`IncidentRuns` its histories, `IncidentRecords` what incidents and events say, `IncidentCompaction` the
bisimulation with a compacted book, `EventQueue` and `EventCoalescing` the queue on top; `Retention` and
`RetentionPass` are the byte-accounted eviction, `RetentionLaws` what it spares, `RetentionRuns` many passes
of it; `Journal` is the paging.

**Checkpoints** (`scripts/reconcile_checkpoint.py`, `scripts/graft_mtp78.py`). `NameOrder`, `Reconciler`,
`ReconcilerLaws`, `CheckpointLaws` and `ReconcileScript`; `Graft`, `GraftLaws` and `GraftScript`.

**Mixed-K experts** (`scripts/patch_exl3_mixk.py`). `MixedK` and `ScratchViews`.

**Fleet manager** (`scripts/fleet_manager.py`). `Fleet`, `FleetLaws`, `FleetRuns`, `FleetMinimum`, `FleetIdle`,
`FleetRetirements`, `FleetManager`.

## What turned out not to hold

Each of these is a lemma with a concrete input, beside the exact condition for all inputs.

- A submitted DCP equal to the detected one is not stored, so it moves when the submission also moves the
  tensor-parallel size (`SampleRegistry.SubmittedDcpMoves`, exact in `RoundTrip.MinimizedResolvesToSubmission`).
- A speculation depth of 0 submitted while the template's draft is off is not stored, so it is lost when the
  same submission turns the draft on (`SampleRegistry.SubmittedDepthReturns`, exact in the same lemma).
- The guard against restarting into the same failure compares knobs the family does not have, which the
  replay neither compares nor restores, so a known-good from another template can be rolled back to for ever
  (`RollbackLoop.RollbackCanLoop`, exact in `RollbackRuns.SecondRollbackIff` and `LeftoversAgreeIff`).
- Compaction discards idle checks and with them their place, so two incidents recovering in one cycle may be
  reported in the other order (`RecoveryOrderExample.CompactionReordersRecoveries`, exact in
  `IncidentCompaction.RelatedCycle`).
- An open incident does lose its evidence over several passes of retention, because a pass may drop the
  journal entry that refers to it (`RetentionRuns.OpenIncidentLosesEvidence`, exact in
  `RetentionRuns.EvidenceSurvivesIff` and `RetentionRuns.StillReferencedIff`).
- The reconciler's "running it twice changes nothing" fails for a wrapper inside a wrapper with vision off
  (`ReconcilerLaws.NestedWrapperUnwrapsTwice`, exact in `Reconciler.SecondRunChangesNothing`); with no shard
  left to list, the index may go on naming vision shards (`ReconcilerLaws.IndexStaysStale`, exact in
  `ReconcilerLaws.StaleVisionEntryIff`).
- Scaling down counts the slots listed at the start of the cycle, the one reaped since and paused ones too, so
  it can retire the only slot that serves (`FleetMinimum.StaleCountRetiresLastSlot` and
  `FleetMinimum.PausedSlotIsCounted`, exact in `FleetMinimum.RetirementMargin`).
- The idle window is not light throughout: cycles that return before the idle clock leave it running
  (`FleetIdle.IdleWindowSpansLoad`, exact in `FleetIdle.ShrinksAfterLightIff`).
- A second retirement may begin before the first has drained, since a router call that raises leaves the idle
  clock running; then the fleet can lose every slot (`FleetRetirements.OutageLosesEverySlot`, exact in
  `FleetRetirements.AtMostOneRetirement`).
- A mixed-K batch below the decode window is refused when the runtime was planned without prefill
  (`MixedK.SmallBatchIsRefused`, exact in `MixedK.Apply`).

## Model

| member | source | states |
|---|---|---|
| `Coercion.CoercionSettles` | scripts/glm_config.py:1378-1437 | for every declared knob type and raw value, an accepted value is accepted again unchanged |
| `Coercion.DeclaredKnobIsWellFormed` | scripts/glm_config.py:1378-1437 | knobs of the declared types meet what the registry model asks: they settle, a choice never yields an empty name, an integer knob yields a number |
| `CoercionLaws.CoercedIff` | scripts/glm_config.py:1378-1437 | what each declared knob type accepts, and as what: the trimmed words for booleans, numbers within inclusive or exclusive bounds, a listed choice, digits separated by commas once blanks are removed, text without control characters |
| `Resolution.ResolvesIff` | scripts/glm_config.py:1798-1926 | resolution succeeds exactly when no layer asks for a withdrawn profile and every strict knob the family has is valid or repaired by the state file |
| `Resolution.SelectorsResolve` | scripts/glm_config.py:1779-1926 | the resolved family and variant are the ones every other knob was resolved for |
| `Resolution.FollowTpIsLargestDivisor` | scripts/glm_config.py:1905-1913 | the derived shard count is the largest legal count that divides the rank count |
| `Resolution.DetectedDcpDividesTp` | scripts/glm_config.py:1798-1926 | a DCP nobody chose always divides the resolved tensor-parallel size |
| `Resolution.ResolveFamily` | scripts/glm_config.py:1779-1795 | the two-layer loop computes the family, or reports a withdrawn profile |
| `Resolution.ResolveKnob` | scripts/glm_config.py:1831-1874 | one pass of the layer loop: default, family, detected, environment and file in precedence, or the strict refusal |
| `Resolution.Resolve` | scripts/glm_config.py:1798-1926 | the whole loop with the variant overlay and both coupling passes computes the layered meaning of every knob |
| `Precedence.HighestLayerWins` | scripts/glm_config.py:1798-1926 | in every successful resolution each knob has the value and the source of the highest layer with a usable one: file, environment, variant default, stock draft, detected hardware, family, built-in; but a DCP nobody chose is the largest legal divisor of the resolved tensor-parallel size, and a draft that is off leaves depth 0 |
| `Precedence.FailsIff` | scripts/glm_config.py:1779-1874 | resolution fails exactly when a layer asks for a withdrawn profile, and otherwise exactly on the first strict knob of the family, in list order, whose environment or file value is unusable and not repaired by the file |
| `PrecedenceExample.MeasuredVariantOutranksHardware` | scripts/glm_config.py:1875-1913 | on a four-GPU host with nothing set, the default variant's DCP of 2 outranks the detected 4 and the tensor-parallel size stays detected |
| `Minimization.FindInvalidStrict` | scripts/glm_config.py:1939-1950 | the environment's invalid strict values, and the environment without them |
| `Minimization.BaselineResolves` | scripts/glm_config.py:1939-1990 | the baselines always resolve once invalid strict values are set aside |
| `Minimization.Baselines` | scripts/glm_config.py:1951-1985 | the three baselines the diff compares against |
| `Minimization.Minimize` | scripts/glm_config.py:1929-2008 | the knob loop stores exactly the diff, reports exactly the dropped knobs, and refuses exactly an unusable strict value |
| `Minimization.DropsIff` | scripts/glm_config.py:1986-2004 | a field is reported as not saved exactly when it is editable, usable, not the default, no selector, and of a knob only other families have |
| `RoundTrip.DiffKeepsSelectors` | scripts/glm_config.py:1929-2008 | the diff selects the family and variant the submission selected |
| `RoundTrip.KnobAfterDiff` | scripts/glm_config.py:1798-2008 | frame: under the diff a stored knob takes its stored value and any other takes what the lower layers give |
| `RoundTrip.DiffResolvesIff` | scripts/glm_config.py:1937-2008 | the diff resolves exactly when the submission repairs every invalid strict environment value of its family |
| `RoundTrip.MinimizedResolvesToSubmission` | scripts/glm_config.py:1798-2008 | round trip for every submission, environment and GPU count: same family and variant, every applicable knob as wanted; the exact conditions for DCP and for MTP_TOKENS |
| `SampleRegistry.SampleIsWellFormed` | scripts/glm_config.py:1798-1926 | the assumptions on a registry are met by a concrete one with two families, presets, a strict knob and a variant that sets its own DCP |
| `SampleRegistry.SampleHasBothKinds` | scripts/glm_config.py:300-481 | the conditions of the next two rows are met by variants of the shipped kinds: one that leaves DCP to detection, and the default one |
| `SampleRegistry.SubmittedDcpMoves` | scripts/glm_config.py:1905-2008 | the DCP exception is real for every registry and every variant that leaves the GPU shape to detection: a submission whose DCP does not come back |
| `SampleRegistry.SubmittedDepthReturns` | scripts/glm_config.py:1914-2008 | the MTP_TOKENS exception is real for every registry and every variant that speculates: a submitted depth of 0 that comes back |
| `DiffLaws.MinimizeIsIdempotent` | scripts/glm_config.py:1929-2008 | minimizing a diff gives the same diff |
| `DiffLaws.DiffIsIrredundant` | scripts/glm_config.py:1937-2008 | removing any one entry changes what resolves or makes it fail, except exactly when a coupled knob follows |
| `ProfileSwitch.VariantSwitchLandsOnProfile` | landing.py:1286-1303 | changing only the variant on an untouched form writes nothing but selectors and lands on the bare profile, with the same outcome |
| `Transactions.ShouldRollbackPredictsRollback` | scripts/config_cli.py:338-433 | should-rollback exits 0 exactly when rollback in the same state performs one, and 3 exactly when rollback does |
| `Transactions.ConfigStore.CurrentAttempt` | scripts/config_cli.py:210-231 | an attempt is live when its token is the recorded one and the state file still has its content |
| `Transactions.ConfigStore.DoBegin` | scripts/config_cli.py:104-117 | begin-attempt records token, file content, configuration and values, or raises and records nothing |
| `Transactions.ConfigStore.DoMarkGood` | scripts/config_cli.py:234-255 | mark-good records the attempt's configuration, or refuses a superseded attempt |
| `Transactions.ConfigStore.DoMarkUnverified` | scripts/config_cli.py:476-481 | mark-unverified degrades the apply state of a live attempt only |
| `Transactions.ConfigStore.Replay` | scripts/config_cli.py:283-335 | the known-good replay: minimize, resolve, compare the comparable knobs, validate |
| `Transactions.ConfigStore.DoRollback` | scripts/config_cli.py:338-413 | every branch of rollback, with what it writes and what it leaves |
| `Transactions.ConfigStore.DoShouldRollback` | scripts/config_cli.py:416-433 | the verdict of should-rollback in every state |
| `Transactions.ConfigStore.DoApply` | landing.py:1325-1395 | every branch of an apply, import or reset, with what it writes and what it leaves |
| `TransactionLaws.DiffResolvesLikeWhole` | scripts/glm_config.py:1929-2008 | values minimize to a file that resolves exactly when they would resolve as the file themselves |
| `TransactionLaws.SubmissionOutcome` | landing.py:1325-1395 | a submission is accepted exactly when the page showed what is in force, no forbidden key is mentioned, what is taken of it resolves and the result is valid; it is Done exactly when it is a reset or some knob's value differs from the one in force; Done writes the diff, the trial state and the restart flag, anything else nothing |
| `TransactionLaws.SubmissionTakesForce` | landing.py:1366-1389 | after an accepted change what the stored diff resolves to is in force; after a reset, what the layers below the file give |
| `TransactionLaws.TakenIsInForce` | landing.py:1286-1389 | after an accepted change every field taken of the submission, editable, accepted by its knob and of the new family, is in force with that value, but for the exact DCP and depth cases |
| `TransactionLaws.SubmittedIsTaken` | landing.py:1286-1303 | imports are taken whole; of a form that changes family or variant only the touched fields and those that name the model |
| `TransactionLaws.RollbackOutcome` | scripts/config_cli.py:338-413 | the exact condition of every verdict of rollback and what each writes: a performed one asks for a restart, a refused one marks the configuration failed and leaves the restart flag |
| `TransactionLaws.CompletionOutcome` | scripts/config_cli.py:104-255 | begin-attempt records what is in force under a new token; mark-good and mark-unverified act exactly on the live attempt; validate judges it |
| `TransactionLaws.ContainerOutcome` | scripts/config_cli.py:85-101 | clearing the restart flag touches nothing else; a start takes the new environment and, with a new runtime directory, forgets the attempt and the flag |
| `TransactionRuns.AttemptOrigin` | scripts/config_cli.py:104-117 | in every run the attempt file holds the latest begun attempt as it was at its begin |
| `TransactionRuns.NoLostUpdate` | scripts/config_cli.py:201-280 | over every interleaving a completion changes the shared files only when its attempt is the latest begun and the state file has its content at that begin |
| `TransactionRuns.KnownGoodIsSound` | scripts/config_cli.py:234-255 | in every run the known-good record is the initial one or what its values resolved to in its attempt's environment, those values being in the file when recorded |
| `TransactionRuns.WrittenStateIsValidated` | landing.py:1344-1389 | what an accepted submission or a known-good replay writes resolves to a configuration that validation passed with the keys the file holds |
| `RollbackRuns.RollbackRestoresKnownGood` | scripts/config_cli.py:283-335 | a rollback to a known-good leaves a file that resolves to it on every comparable knob with no validation error |
| `RollbackRuns.SecondRollbackIff` | scripts/config_cli.py:283-433 | after any rollback and only quiet events, another one can succeed exactly when the known-good's inapplicable leftovers resolve differently today, or the rollback left the very file its attempt began with |
| `RollbackRuns.LeftoversAgreeIff` | scripts/config_cli.py:300-395 | the leftovers of a record that replays agree exactly when it records every knob and every knob its family lacks has the recorded value from today's layers below the file |
| `RollbackRuns.SameFileIff` | scripts/config_cli.py:337-433 | a rollback leaves the file its attempt began with exactly when that file is what it writes |
| `RollbackRuns.RunKeepsAttemptFresh` | scripts/config_cli.py:201-232 | in every run whose starts keep the environment unless the directory is new, the attempt is what its values resolve to today |
| `RollbackRuns.SecondRollbackOverRuns` | scripts/config_cli.py:283-433 | in such runs only the leftovers can make another rollback succeed |
| `RollbackRuns.EveryRoundRollsBack` | scripts/config_cli.py:300-413 | with leftovers that disagree, every further round of an attempt and its rollback succeeds again |
| `RollbackRuns.NoLoopWithinOneEnvironment` | scripts/config_cli.py:283-413 | a known-good recorded in today's environment has no leftovers to disagree on, so the rollback loop stops |
| `RollbackLoop.RollbackCanLoop` | scripts/config_cli.py:300-413 | a run from a volume, through a good boot under one template and a failed one under another, whose every later attempt is rolled back |
| `RollbackLoop.SampleHasTwoFamilies` | scripts/glm_config.py:90-225 | the registry shape that run needs is met by the sample |
| `RollbackRuns.AcceptedOverItsRendering` | landing.py:1344-1366 | a submission is accepted only over the configuration it was rendered from |
| `RollbackRuns.SecondSubmissionNeedsUndo` | landing.py:1344-1366 | of two submissions from one rendering the second is accepted after the first changed it only if some event undid the change |
| `Patches.DisjointCommute` | scripts/apply_field_review_patches.py:183-244 | patches with no file in common commute: same tree, same refusals |
| `Patches.AppliesIff` | scripts/apply_field_review_patches.py:160-244 | a patch applies exactly to a tree whose files of it are all exactly before or all exactly after, and leaves them all after and every other file alone |
| `Chains.ChainsPartition` | scripts/apply_field_review_patches.py:253-287 | each component of the target occurs in exactly one chain, once |
| `Chains.ChainsDisjoint` | scripts/apply_field_review_patches.py:253-287 | the chains' file sets are pairwise disjoint |
| `Chains.ChainsInOrder` | scripts/apply_field_review_patches.py:253-287 | components that share a file keep manifest order despite merges |
| `Chains.ChainsAreComponents` | scripts/apply_field_review_patches.py:253-287 | the chains are exactly the connected components of the file-overlap graph |
| `Chains.ChainsRunLikeManifest` | scripts/apply_field_review_patches.py:253-287 | running chain after chain accepts the same trees as the manifest order and leaves the same tree |
| `ChainPlanner.TargetComponentChains` | scripts/apply_field_review_patches.py:247-287 | the two parallel lists, grown, merged in place and deleted from backwards, compute those chains |
| `Snapshots.StepFromSnap` | scripts/apply_field_review_patches.py:183-314 | a tree at one snapshot takes exactly the next component and is at the next snapshot after it |
| `Snapshots.RunFromSnap` | scripts/apply_field_review_patches.py:290-341 | from a snapshot, the components up to a later one apply without refusal and nothing else moves |
| `PatchRuns.CutRun` | scripts/apply_field_review_patches.py:356-498 | a run stopped at any component boundary refuses nothing, leaves every chain at a snapshot and every other file alone |
| `PatchRuns.FullRun` | scripts/apply_field_review_patches.py:487-498 | a completed run leaves every tracked file at its final hash and every other file alone |
| `PatchRuns.RerunAppliesNothing` | scripts/apply_field_review_patches.py:317-341 | from the final tree the plan is empty |
| `PatchRuns.ResumedRunsConverge` | scripts/apply_field_review_patches.py:317-498 | after any number of stopped runs the last one reaches the tree an undisturbed run would have reached |
| `PatchPlans.ManifestSound` | scripts/apply_field_review_patches.py:78-143 | an accepted manifest gives disjoint, continuous chains of components that change every file they name |
| `PatchInstaller.ComponentSnapshots` | scripts/apply_field_review_patches.py:290-314 | the exact snapshots of a chain, or the discontinuity error exactly for a discontinuous one |
| `PatchInstaller.SnapshotIndex` | scripts/apply_field_review_patches.py:317-341 | the latest snapshot the files are exactly in, or the refusal |
| `PatchInstaller.Directory.ApplyComponent` | scripts/apply_field_review_patches.py:183-244 | skip what is applied, apply what is exactly before, refuse anything else and leave it untouched |
| `PatchInstaller.DryRun` | scripts/apply_field_review_patches.py:403-420 | the dry run on a copy of the chain's files never fails for a located chain |
| `PatchInstaller.Preflight` | scripts/apply_field_review_patches.py:356-422 | the preflight accepts exactly when every needed root exists and every chain is at one of its snapshots, and plans each chain from its latest one |
| `PatchInstaller.Install` | scripts/apply_field_review_patches.py:455-500 | refused, before any mutation, exactly for a bad manifest or an unlocated chain; otherwise exactly the components the run lived for are applied and none is refused |
| `InstalledFiles.FullRunInstalls` | scripts/apply_field_review_patches.py:183-498 | a completed installation leaves every file of every component, at every target the component lists, with the after-hash of the last component that names that target and file, and every other file unchanged |
| `InstalledFiles.StoppedRunIsOnItsWay` | scripts/apply_field_review_patches.py:183-498 | a run stopped between any two components leaves every such file as its first component wants to find it or as one of its components leaves it, and every other file unchanged |
| `InstalledFiles.AcceptedIff` | scripts/apply_field_review_patches.py:78-143 | a manifest is accepted exactly when its components are well made and each finds each of its files, per target, as the component before it in the manifest left it |
| `InstalledFiles.UntouchedAndFinishedAreReady` | scripts/apply_field_review_patches.py:317-422 | a tree no component has touched and one already as the manifest leaves it are ready, the latter with nothing to do |
| `PatchInstaller.InstallIsResumable` | scripts/apply_field_review_patches.py:317-498 | after killed runs the manifest is still accepted, one full run reaches the undisturbed tree, and the next has nothing to apply |
| `PatchInstaller.InstallRunsManifestOrder` | scripts/apply_field_review_patches.py:253-498 | from the base tree an undisturbed install, or one killed any number of times, leaves the tree of the manifest order over all targets |
| `Incidents.IncidentBook.Reconcile` | scripts/soul_controller.py:590-629 | both loops: findings in order, then every check without one, and what they report |
| `IncidentRecords.CycleMoves` | scripts/soul_controller.py:590-629 | what a cycle makes of every incident, field by field: an open one is seen now while its finding is there and recovers now, with this snapshot, when it is gone; a new one was opened now for a finding of the cycle; any other is unchanged |
| `IncidentRecords.CycleTells` | scripts/soul_controller.py:597-628 | what every event of a cycle says: opened, the reported finding, both times now and this snapshot; updated, seen now with the finding and the opening time as opened; recovered, now and with this snapshot |
| `IncidentRecords.CycleOrder` | scripts/soul_controller.py:597-628 | a cycle reports openings and updates in the order of its findings, then recoveries in the order of the checks, no fingerprint twice |
| `IncidentRecords.RunsAreTruthful` | scripts/soul_controller.py:590-629 | over any run every event of an incident keeps the finding, fingerprint and opening time of its opening; what the book stores is what its events say, a recovered incident as its recovery reported it, an open one as the last cycle saw it |
| `Incidents.ReconciledValid` | scripts/soul_controller.py:590-629 | a check carries an identifier exactly when it is that open incident's |
| `Incidents.OneOpenIncident` | scripts/soul_controller.py:590-629 | at most one open incident per fingerprint |
| `Incidents.PendingIsCarriers` | scripts/soul_controller.py:631-633 | the number of open incidents is the number of checks that carry an identifier |
| `Incidents.IncidentBook.PendingCount` | scripts/soul_controller.py:631-633 | pending_count returns the number of checks that carry an identifier |
| `Incidents.IncidentBook.Compact` | scripts/soul_controller.py:1063-1087 | compaction keeps exactly the open incidents and the checks that carry one or count failures, in order |
| `IncidentRuns.CountersFollowHistory` | scripts/soul_controller.py:590-629 | over any run, with compactions anywhere, a counter is the current streak of findings and an incident is open exactly when that streak reached what is required |
| `IncidentRuns.CycleReports` | scripts/soul_controller.py:590-629 | a cycle opens exactly when the streak first reaches what is required, recovers exactly when it breaks, updates exactly when open and the coalescing interval has passed |
| `IncidentRuns.IncidentsLive` | scripts/soul_controller.py:590-629 | over any run every incident's events are opened, updates at least the interval apart, then one recovery exactly when it is no longer open |
| `IncidentCompaction.RelatedCycle` | scripts/soul_controller.py:590-629 | one cycle on books that differ by compaction: same openings and updates, same recoveries up to order, and the very same report exactly when the recovering checks stand in the same order |
| `IncidentCompaction.CompactionIsInvisible` | scripts/soul_controller.py:1063-1087 | for every future history, with compactions anywhere, each cycle reports what it would have without them, up to the order of that cycle's recoveries |
| `IncidentCompaction.CompactNowSeenNever` | scripts/soul_controller.py:1063-1087 | compacting any valid book now is seen by no future history, with or without later compactions |
| `RecoveryOrderExample.CompactionReordersRecoveries` | scripts/soul_controller.py:616-628 | a reachable book for which compaction changes the order of two recoveries |
| `EventQueue.Queue.Report` | scripts/soul_controller.py:1518-1526 | the queueing loop: an event is appended unless its incident and kind are already waiting |
| `EventQueue.Queue.Pop` | scripts/soul_controller.py:1556-1568 | the head leaves the queue once its record is written |
| `EventQueue.AnalysingDelivers` | scripts/soul_controller.py:1533-1568 | analysing n times delivers the n events that have waited longest, in order |
| `EventQueue.QueueIsFaithful` | scripts/soul_controller.py:1518-1568 | over any interleaving the queue holds no incident and kind twice, and delivered plus waiting has every opening and recovery that was reported, in order, and each incident's opening first and recovery last |
| `EventCoalescing.QueueCoalescesUpdates` | scripts/soul_controller.py:1518-1568 | delivered plus waiting is a subsequence of what was reported; a report is missing exactly when an earlier one of its incident and kind was still waiting, and then it is an update |
| `EventQueue.DeliveryOrder` | scripts/soul_controller.py:1518-1568 | an incident's updates and recovery are delivered after its opening |
| `Retention.TailIsBoundedSuffix` | scripts/soul_controller.py:1041-1060 | truncation keeps a suffix within the limit: everything that fits, else from the first line break of the window, else the window |
| `Retention.OpenRefsAre` | scripts/soul_controller.py:1090-1121 | the protected files are exactly those an open incident refers to |
| `Retention.ShrunkFits` | scripts/soul_controller.py:1195-1259 | the size pass ends within the cap or with nothing left to give, sacrifices each category only after the one before, and deletes no protected file |
| `Retention.EvidenceOldestFirst` | scripts/soul_controller.py:1205-1218 | evidence goes as the shortest sufficient prefix in order of age |
| `Retention.RetentionHolds` | scripts/soul_controller.py:1148-1259 | one pass: within the cap or exhausted, and every file an open incident refers to at its start survives unchanged |
| `RetentionRuns.EvidenceSurvivesIff` | scripts/soul_controller.py:1090-1259 | over any passes an evidence file survives exactly when each pass finds it referred to, or neither too old nor among the oldest that must go |
| `RetentionRuns.StillReferencedIff` | scripts/soul_controller.py:1090-1233 | after a pass a file is still referred to exactly when its incident's snapshot is that file or a line that names it is fresh and not trimmed |
| `RetentionRuns.ReferredSurvives` | scripts/soul_controller.py:1090-1259 | a file each of any number of passes finds referred to survives them unchanged |
| `RetentionRuns.OpenIncidentLosesEvidence` | scripts/soul_controller.py:590-616 | an incident opened with one snapshot and seen again with another, whose opening snapshot the second pass deletes while it is open |
| `RetentionPass.StateDirectory.TotalBytes` | scripts/soul_controller.py:1195-1196 | the listing's sum is the real byte sum |
| `RetentionPass.StateDirectory.EvictFrom` | scripts/soul_controller.py:1210-1218 | the eviction loop deletes the needed prefix and its running total is the real byte sum |
| `RetentionPass.StateDirectory.TrimOldest` | scripts/soul_controller.py:1219-1233 | the oldest journal lines go, no more than needed, and the total stays real |
| `RetentionPass.StateDirectory.Enforce` | scripts/soul_controller.py:1148-1259 | the whole pass computes the specified directory for the listing it got |
| `RetentionLaws.PassSpares` | scripts/soul_controller.py:1148-1259 | for every directory, book, policy and listing, config.json, status.json, the journal lock and the pending events stay unchanged, the incident index is there, the controller log keeps a suffix and the journal goes on existing |
| `RetentionLaws.PassExpires` | scripts/soul_controller.py:1153-1194 | after a pass no evidence file past its age is left unless an open incident refers to it, every journal line is dated and recent, the log is bounded, and no other file has appeared or changed |
| `RetentionLaws.PassDeletesOnly` | scripts/soul_controller.py:1148-1259 | a file goes only when it is expired, or when the rest did not fit and it is neither vital, nor the index, nor referred to |
| `RetentionLaws.PassOnlyCleans` | scripts/soul_controller.py:1148-1197 | while the directory fits once it is cleaned, a pass removes exactly the expired files and exactly the undated or old journal lines, and of the log only what exceeds its allowance |
| `RetentionLaws.PassFitsOrExhausts` | scripts/soul_controller.py:1195-1259 | a pass ends within the cap, or with only vital files, the index and referenced files left and journal and log empty |
| `Journal.ReadJournal` | scripts/soul_config.py:358-380 | the reversed loop with its accepting flag computes the page after the cursor |
| `Journal.PageHolds` | scripts/soul_config.py:358-380 | a page holds the entries right after the newest one that carries the cursor, newest first, as many as fit a size between 1 and 50; nothing when no entry carries it |
| `Journal.UnknownCursorEndsPaging` | scripts/soul_config.py:358-380 | a cursor no entry carries yields an empty page |
| `Journal.PagingListsEachEntryOnce` | scripts/soul_config.py:272-380 | following cursors with any limits, with entries appended in between, lists the entries of the first request newest first, each once |
| `MixedK.WidthClasses` | scripts/patch_exl3_mixk.py:132-147 | the width class of every expert, or the error exactly when some expert's widths disagree or are not declared |
| `MixedK.PrepareTiers` | scripts/patch_exl3_mixk.py:132-233 | tiers in ascending class, each with its experts in order and its route map |
| `MixedK.RouteMapIsBijection` | scripts/patch_exl3_mixk.py:226-228 | each route map is a bijection from its tier's experts to 0..n-1 and -1 elsewhere |
| `MixedK.TieredIsUntiered` | scripts/patch_exl3_mixk.py:414-458 | for any widths, ids and weights the sum over tiers is the untiered mixture of experts |
| `MixedK.ArenaFor` | scripts/patch_exl3_mixk.py:372-386 | the arena holds every scratch view and is no larger than the largest |
| `ScratchViews.ViewIsByteSize` | scripts/patch_exl3_mixk.py:265-270 | every byte of every element of a view, at its row-major offset, lies below the view's byte size, and no two share an address |
| `ScratchViews.ViewHasNoGap` | scripts/patch_exl3_mixk.py:265-270 | every byte below the byte size is some byte of some element |
| `ScratchViews.ViewsStayInArena` | scripts/patch_exl3_mixk.py:265-386 | every byte of every scratch view of a planned runtime lies inside the arena it shares |
| `MixedK.PlanRuntime` | scripts/patch_exl3_mixk.py:352-400 | a decode plan for every tier, a prefill plan exactly when the capacity exceeds the decode window, and arenas that hold every view |
| `MixedK.Apply` | scripts/patch_exl3_mixk.py:414-458 | refused exactly for a batch with no plan; otherwise the accumulator ends up with the untiered output, every scratch view inside its arena |
| `MixedK.SmallBatchIsRefused` | scripts/patch_exl3_mixk.py:362-436 | a planned runtime and a batch within its capacity that has no plan |
| `Graft.AlwaysRecoverable` | scripts/graft_mtp78.py:24-105 | under any forward and revert runs cut anywhere, each file is its original or has it as backup |
| `Graft.CompletedRevertRestores` | scripts/graft_mtp78.py:24-33 | a completed revert restores the pristine checkpoint from any such state |
| `Graft.CompletedForwardGrafts` | scripts/graft_mtp78.py:42-105 | a forward run completes exactly when every shard still named by the index is on disk and every tail has its range, with the files it yields from pristine |
| `GraftLaws.CompletedGraftSays` | scripts/graft_mtp78.py:42-105 | whatever was stopped before, a completed graft leaves: the overlay's tensors and the original's that are no layer-78 expert; an index that names them there, keeps every other such entry, and totals the named shards' sizes, each once; and a configuration that reaches 78 and is otherwise unchanged but for the layer-78 ignore entries |
| `Graft.BuildableIff` | scripts/graft_mtp78.py:66-103 | the rebuilt index and configuration can be produced exactly under that condition on the originals |
| `Graft.GraftedIndexAgrees` | scripts/graft_mtp78.py:51-78 | the grafted index names exactly the grafted shard's tensors there and keeps every other non-expert entry |
| `Graft.GraftedSectionSpans` | scripts/graft_mtp78.py:80-103 | the grafted configuration spans layer 78, no longer ignores it, and is stable under grafting again |
| `GraftScript.ModelDirectory.Forward` | scripts/graft_mtp78.py:42-105 | the script's steps in order, up to the step it is killed at or cannot take |
| `GraftScript.ModelDirectory.Undo` | scripts/graft_mtp78.py:24-33 | the revert's steps in order, up to the step it is killed at |
| `NameOrder.OneListing` | scripts/reconcile_checkpoint.py:317-318 | a folder has one sorted listing |
| `Reconciler.CapturedPristine` | scripts/reconcile_checkpoint.py:172-241 | a captured baseline never holds the grafted range, whatever the snapshots say |
| `Reconciler.TextMatchesTensors` | scripts/reconcile_checkpoint.py:245-273 | the expert range reaches 78 exactly for a trellis layer; the ignore list names layer 78 exactly when it is not one and some source knows how |
| `Reconciler.SecondRunChangesNothing` | scripts/reconcile_checkpoint.py:427-511 | a second run changes no file, except exactly for a wrapper inside a wrapper with vision off |
| `ReconcilerLaws.OnThenOffIsOff` | scripts/reconcile_checkpoint.py:427-511 | vision on then off leaves the configuration vision off leaves directly, except exactly for the nested wrapper that could not be turned on |
| `ReconcilerLaws.MarkerMatchesConfig` | scripts/reconcile_checkpoint.py:392-424 | the configuration is wrapped exactly when the marker says so, except exactly for the nested wrapper |
| `ReconcilerLaws.WeightMapAt` | scripts/reconcile_checkpoint.py:324-335 | the map sends a tensor to the last listed shard that carries it |
| `ReconcilerLaws.IndexMatchesShards` | scripts/reconcile_checkpoint.py:307-352 | after success the index names a shard exactly when it is listed and owns a tensor; with nothing listed, what it named before |
| `ReconcilerLaws.StaleVisionEntryIff` | scripts/reconcile_checkpoint.py:307-352 | after success the index names a vision shard while vision is off exactly when vision ended up off, no other shard is on disk, and it named that shard before |
| `ReconcilerLaws.IndexStaysStale` | scripts/reconcile_checkpoint.py:321-324 | a concrete checkpoint whose successful run leaves an index that names the tower |
| `ReconcilerLaws.NestedWrapperUnwrapsTwice` | scripts/reconcile_checkpoint.py:133-144 | a concrete wrapper inside a wrapper that a second run unwraps again, and that on and off again changes |
| `ReconcilerLaws.RunMatchesTensors` | scripts/reconcile_checkpoint.py:427-511 | a run sets the layer-78 fields of any stale configuration to what layer 78 is |
| `ReconcileScript.Checkpoint.FindBaseline` | scripts/reconcile_checkpoint.py:172-241 | the cache of this checkpoint, or the first trustworthy source of each field |
| `ReconcileScript.Checkpoint.RebuildIndex` | scripts/reconcile_checkpoint.py:307-352 | the sorted loop rebuilds the map when it differs and reports an unreadable shard, leaving the index alone |
| `ReconcileScript.Checkpoint.Run` | scripts/reconcile_checkpoint.py:427-511 | the whole script: exit 0 exactly for a usable checkpoint with a readable listing, the specified files otherwise, nothing in a dry run |
| `CheckpointLaws.RunMarks` | scripts/reconcile_checkpoint.py:355-511 | after a run the markers say what is on disk; the vision template is live with vision on and the saved text one with it off, if there is one, and a text template is saved exactly when the vision one replaces it |
| `CheckpointLaws.TemplateOnThenOff` | scripts/reconcile_checkpoint.py:355-389 | vision on and then off leaves the template that vision off leaves directly, except exactly when there was none to save |
| `CheckpointLaws.RunConfigures` | scripts/reconcile_checkpoint.py:245-304 | the text's range, ignore list and architectures field by field from what layer 78 is and the baseline, and the wrapper from the installer's or the current one |
| `CheckpointLaws.RunCaptures` | scripts/reconcile_checkpoint.py:172-241 | the baseline is the cached one of this checkpoint, or range and patterns each from the first of graft backup, vision backup and current text that has usable ones |
| `CheckpointLaws.RunIndexes` | scripts/reconcile_checkpoint.py:307-352 | the index names for each tensor exactly the last listed shard, by name, that carries it, and a rewritten one totals the listed shards, each once; otherwise it is untouched |
| `Fleet.FreeNameIsFree` | scripts/fleet_manager.py:162-165 | pigeonhole: the name search stops within as many tries as there are slots, at a free name |
| `Fleet.CreateIsSafe` | scripts/fleet_manager.py:145-196 | a creation adds one slot under the maximum, under a free name, only when no alive slot is younger than the boot timeout |
| `Fleet.CycleSafe` | scripts/fleet_manager.py:139-326 | a cycle keeps the maximum and distinct names |
| `FleetRuns.RunBounded` | scripts/fleet_manager.py:139-326 | over any run with slots dying outside, the fleet keeps the maximum and distinct names |
| `FleetRetirements.AtMostOneRetirement` | scripts/fleet_manager.py:266-326 | over any run, with the idle window at least the drain window and a positive cooldown, at most one retirement is outstanding at every point exactly when no cycle, before the drain of a retirement the router refused is over, reaches the still running idle clock under light load with a slot left to retire |
| `FleetRetirements.OutageLosesEverySlot` | scripts/fleet_manager.py:292-326 | a concrete run in which the router refuses one retirement, the next cycle begins a second, and both slots are destroyed below the minimum |
| `FleetRuns.VictimChoice` | scripts/fleet_manager.py:294-311 | the retired slot is healthy, not retiring, spot if any such slot is, and the least loaded of its kind |
| `FleetRetirements.ScaleDownKeepsListedMin` | scripts/fleet_manager.py:266-326 | counting listed slots as scaling down does, paused and gone ones too: without outside deaths, reaped slots or such cycles it never leaves fewer than the minimum |
| `FleetMinimum.RetirementBeginsIff` | scripts/fleet_manager.py:139-326 | a cycle begins a retirement exactly when its idle window is over with a slot left to retire, no retirement has drained, and neither ensure_min nor the reap created a slot or failed, with every guard of both |
| `FleetMinimum.RetirementMargin` | scripts/fleet_manager.py:139-326 | the minimum of alive slots stays beside the retiring ones exactly when the slots alive and not retiring at the start of the cycle, less a hung one it reaps, are more than the minimum |
| `FleetMinimum.ScaleDownKeepsAliveMin` | scripts/fleet_manager.py:139-326 | over runs without outside deaths or reaped hung slots, however many retirements are outstanding, the minimum of alive slots is kept beside them at every point exactly when every cycle that begins one finds more than it alive and not retiring |
| `FleetMinimum.StaleCountRetiresLastSlot` | scripts/fleet_manager.py:202-326 | a concrete cycle that reaps one slot and retires the only one that serves |
| `FleetMinimum.PausedSlotIsCounted` | scripts/fleet_manager.py:202-326 | a concrete cycle that counts a paused slot as one to spare and retires the only one that serves |
| `FleetIdle.IdleSinceIff` | scripts/fleet_manager.py:266-313 | over any run the clock holds t exactly when t is the first cycle that noted light load since the clock was last cleared, by heavy load or by a retirement the router took |
| `FleetIdle.ShrinksAfterLightIff` | scripts/fleet_manager.py:266-313 | a retirement ends an idle window of the configured length, and the load was light throughout it exactly when no cycle in it returned before the clock with no slot serving or without light load |
| `FleetIdle.IdleWindowSpansLoad` | scripts/fleet_manager.py:277-291 | a concrete run that retires a slot 25 seconds after heavy load although the idle window is 50 |
| `FleetManager.Manager.CreateSlot` | scripts/fleet_manager.py:145-196 | create_slot with every early return and the raising command |
| `FleetLaws.CreationLaw` | scripts/fleet_manager.py:145-196 | a slot is created exactly when the listing succeeds, the fleet is below its maximum, no slot up is younger than the boot timeout and the provider agrees: the smallest free number, on demand exactly while fewer on-demand slots than the backbone are up |
| `FleetLaws.EnsureLaw` | scripts/fleet_manager.py:139-143 | ensure_min creates exactly when fewer slots than the minimum are up |
| `FleetManager.Manager.Reap` | scripts/fleet_manager.py:202-251 | the reap loop with one action per cycle |
| `FleetLaws.ReapLaw` | scripts/fleet_manager.py:202-251 | the reap passes over every slot that serves, boots or is within its grace and marks since when each is unhealthy; on the first other one it leaves a paused machine, destroys a hung one, and replaces it |
| `FleetManager.Manager.Autoscale` | scripts/fleet_manager.py:266-313 | autoscale with every early return, and the rewiring that may raise between recording a retirement and clearing the idle clock |
| `FleetLaws.AutoscaleLaw` | scripts/fleet_manager.py:266-313 | by the serving slots' waiting and running totals: nothing without one or within the cooldown, a creation under heavy load below the maximum, the idle clock and possibly a retirement under light load, the clock stopped otherwise |
| `FleetManager.Manager.FinishRetirements` | scripts/fleet_manager.py:315-326 | drained slots are destroyed and the cooldown restarted |

## Left out

- `validate`: an arbitrary verdict over the effective configuration, the keys the file holds and the environment; its measured rules and messages are not modelled, nor the extra context the dashboard passes.
- Registry contents: knobs, families and variants are any that meet `Knobs.WellFormed`; the DCP choices, spelled as digit strings in the source, are numbers.
- GPU count: one explicit input of the environment; the source falls back to the process environment when the startup snapshot is empty.
- Notes, messages, source labels in records, failure folders, logs, JSON encoding, file modes, fsync and real clocks.
- Malformed state files, other than one that names a startup-only switch; legacy spellings of families and environment values.
- The manual command line without an attempt token, which deliberately bypasses the guard.
- Tokens are numbered and content stands for its SHA-256; a repeated random token or a hash collision is not modelled.
- The parsing rules of Python's `int` and `float` and its Unicode white space: parameters and ASCII in `Coercion`.
- GNU patch: it maps the before-hashes of a component's files to the after-hashes; a stop inside one patch is not modelled, nor two targets that are the same folder.
- Manifest syntax, path safety and the match between a diff and its manifest entry.
- The SOUL controller's findings, analyses and telemetry; a stop between saving the book and saving the queue, which would lose the cycle's events, is not modelled, nor one between appending a journal record and saving the queue, which would deliver that event twice.
- Incident books and queues read from damaged or foreign files: books start empty or as a former run left them.
- I/O errors during retention; journal lines are their length, time, incident and references.
- Journal redaction: an identifier is assumed to survive it.
- Kernels and floating point of the mixed-K path: outputs are reals, one expert's output on one token is given; the runtime cache and its key are not modelled.
- Zero experts: `MixedK.Apply` asks for at least one, since with none the accumulator is returned as it was found.
- Other programs that rewrite `config.json` or the index between a graft and its revert.
- Configurations the graft cannot read for other reasons than a tail without its range, such as a null quantization section.
- The safetensors header parser and the regular expressions that classify tensor names: a shard holds classified tensors, or cannot be read.
- Tunnels, HTTP probes and what the router is told; that a rewiring in the middle of a cycle may raise is modelled. Slots are their numbers, and one clock reading serves a fleet cycle.
- What the provider lists once a paused slot is resumed: it shows at the next listing a cycle starts from, not within the cycle.
- `ScaleDownKeepsListedMin`: counts every slot listed, as scaling down does; the minimum of alive slots, which ensure_min keeps, is the subject of `FleetMinimum`.
- `CreateIsSafe`: age is the reported runtime or the time since first seen, as the source computes it, not the slot's true age.
- Benchmarks, provisioning, DNS and web pages: input and output.
- Single-anchor patchers and the literal variant tables: finite data and string replacement.
