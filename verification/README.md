# Relay's state machines and in-place algorithms, verified

Relay is a desktop shell for AI agents. Most of it is user interface and foreign calls; underneath sit several
small concurrent protocols and in-place loops with hard invariants. This project models those and proves what they
promise, for every input, every run and every interleaving.

| file | what it models |
|---|---|
| `Checkpoints.dfy`, `CheckpointStore.dfy` | the checkpoint table and the hidden git refs: as values, and as a mutable store whose methods are proved to compute those values |
| `CheckpointProtocol.dfy` | the three-phase checkpoint threads as a transition system: any number of threads, the lock dropped across every snapshot, git failing at any ref, boot prunes with a detached ref half |
| `CheckpointSections.dfy` | the locked sections row by row: what each insert and prune does, and that the threads come to these sections and to nothing else |
| `CheckpointCap.dfy` | where the per-session cap leads |
| `CheckpointRestore.dfy` | destructive restores, their safety rows, and conversation rollback |
| `AutomationRuns.dfy` | the guards of an automation run over any number of processes and threads, one atomic operation a step |
| `AutomationLocks.dfy`, `AutomationStops.dfy`, `AutomationLaunches.dfy` | for every reachable state: the exact steps that take a run's lock file, by takeover or by the end of another run, and its stop flag, automation by automation and slot by slot; what one launch does |
| `AutomationRaces.dfy` | reachable states that the comments rule out |
| `AutomationGuards.dfy` | the same functions as they change one process's tables, one launch at a time, and that a launch left alone comes to the same step by step |
| `CronClock.dfy` | cron due-ness over the life of one automation |
| `Forest.dfy`, `Readability.dfy` | the reader view's in-flight removal walk over linked elements, against recursive pruning |
| `Article.dfy` | the reader view's top-candidate insertion and its flag sieve |
| `FloodFill.dfy` | the logo script's backdrop removal, against plain connectedness |
| `GitTriggers.dfy` | the head comparison of git triggers over many passes |
| `Debounce.dfy` | two debounced watcher threads with their time bound, and the minimum re-fire interval |
| `BodyPump.dfy` | the resumable download |
| `BotRuns.dfy` | counted run guards |
| `Diagnostics.dfy` | the diagnostics ring and its reading cursor |
| `Census.dfy` | the element census shared by snapshot, page read and resolver, and the resolver's choice |

Code that changes state in place is a class or a method here. Its contract ties the new state to a function of the
old one, and the lemmas are about that function. Code that several threads share is a transition system in addition:
one step per critical section or atomic operation, one invariant kept by every step, and the results follow for every
reachable state.

Where the code differs from what its comments say, the model follows the code, and the difference is a result:

- A restore is documented as undoable by restoring its safety checkpoint (`src-tauri/src/checkpoints.rs:446-451`).
  For the working tree that holds (`UndoChain`), even after a checkout that fails halfway (`RestoreExactly`, `UndoOne`),
  for as long as the safety row outlives later prunes, which is exactly known whatever the cap and git do from turn to
  turn (`UndoAfterTurns`); for the conversation it holds exactly when nothing was deleted (`UndoConversation`,
  `UndoLosesMessage`).
- A created checkpoint can be deleted by the prune of its own insert and still be reported as created;
  `NewTurnSurvives` says exactly when it is still there.
- A ref is said never to be stranded behind a deleted row (`src-tauri/src/checkpoints.rs:169-171`); it is, exactly when
  the row's repository is not a work tree at that moment (`PassOrphansExactly`, `PassStrandsRef`).
- A missing bot is said to leave the guards released (`src-tauri/src/automations.rs:608-612`). That exit, and the one
  for a disabled bot, keep them: the automation never starts again in that process (`StrandedBlocks`,
  `DisabledBotBlocks`).
- `stop_run` is said to return false only when no run of this process holds the automation
  (`src-tauri/src/automations.rs:87-90`). The two removals of `release_guards` are separate, so the release of one run
  can take away the flag of the next (`StopMissesRunningRun`); a run loses its flag exactly that way
  (`LostExactlyByCrossing`).
- A dead owner's lock is judged in one operation and removed in another, so two processes can both take over one dead
  lock and both run (`TwoProcessesRun`). In every reachable state a run loses its lock file in exactly two ways: a
  takeover of its automation removes it, or another run of the automation that owns a lock file, or owned one that was
  taken from it, ends (`LosesLockExactly`).
- `release_guards` removes the file at the lock's path without looking whose it is
  (`src-tauri/src/automations.rs:448-454`), so a run that was robbed takes, as it ends, the lock of the run that took
  over (`RobbedRunTakesLock`). While all runs of an automation have their files, though, only a takeover that removes
  one in use can break that (`RobbedExactly`), and the first time it happens the file is not the one that was judged,
  or is over six hours old (`WhyRobbed`). From any moment at which an automation's locks are unused they exclude until
  such a step, whatever happens to other automations (`OneLockedRun`); with looking and removing as one step and no run
  over six hours old there is none (`AtOnceExcludes`).
- A live owner's lock is said never to be stale (`src-tauri/src/automations.rs:535-536`). In the code it is stale after
  six hours, and a second process then takes it over beside the running run (`OldRunLosesLock`).
- A dead owner's lock is said to be stale at once (`src-tauri/src/automations.rs:529-536`). One that vanishes after it
  refused the creation turns the launch away all the same, since nothing is left to judge (`VanishedLockRefuses`).
- `src-tauri/src/bridge_refs.js:12-16` describes one shared numbering from 1. The snapshot, page read and resolver each
  have a loop of their own and number from 0; those loops are the model.
- The resolver is said to let tags only break ties between labels (`src-tauri/src/bridge_resolve.js:11-14`). One place in
  the tag order weighs as much as ten characters of label (`ShorterLabelWins`, `LongerLabelCanWin`).
- The minimum re-fire interval is compared after a cast from `u64` to `i64`; it is kept exactly when the cast does not
  change it (`IntervalKeptExactly`).

## Model

| member | source | states |
|---|---|---|
| CheckpointProtocol.NextKeeps | src-tauri/src/checkpoints.rs:172-444 | every step of every thread keeps the invariant: ids ascend, each row's ref is there and holds the row's own tree, each ref has its row or is accounted for, a baseline is its session's oldest row |
| CheckpointProtocol.RunKeeps | src-tauri/src/checkpoints.rs:335-444 | the invariant holds along every run, so every result below holds in every reachable state |
| CheckpointProtocol.OneBaseline | src-tauri/src/checkpoints.rs:276-294 | however the threads interleave, a session has at most one live row that `insert_baseline` inserted, and it has the session's smallest id, although the snapshot ran without the lock |
| CheckpointProtocol.OrphansAccounted | src-tauri/src/checkpoints.rs:169-267 | in any reachable state a ref lacks its live row if and only if it is queued for detached deletion, or its row went while git could not delete it |
| CheckpointProtocol.LiveRefsIntact | src-tauri/src/checkpoints.rs:102-109 | the ref of a live row always exists and points at that row's tree; no prune, inline or detached, hits another row's ref |
| CheckpointProtocol.OnlyPendingOrphans | src-tauri/src/checkpoints.rs:172-208 | inline ref deletions may fail as often as they like: while repositories are reachable and detached deletions succeed, no step strands a ref |
| CheckpointProtocol.NoOrphans | src-tauri/src/checkpoints.rs:243-266 | under those conditions, once the detached queue is empty, every hidden ref has its live row |
| CheckpointProtocol.PassOrphansExactly | src-tauri/src/checkpoints.rs:169-184 | after an inline pass a ref that is left lacks its row if and only if it lacked it before, or the pass took its row while the repository was not a work tree; a failing deletion alone strands nothing |
| CheckpointProtocol.PassStrandsRef | src-tauri/src/checkpoints.rs:169-184 | a reachable state with a stranded ref: the prune took its row while the repository was gone, and nothing is queued to delete it |
| CheckpointProtocol.BootPruneExact | src-tauri/src/checkpoints.rs:215-260 | boot prune keeps exactly the rows that are neither over-cap oldest turns nor older than the cutoff |
| CheckpointProtocol.BootPruneKeeps | src-tauri/src/checkpoints.rs:243-266 | boot prune keeps the invariant, its victims' refs becoming exactly the added debt |
| CheckpointProtocol.PruneKeeps | src-tauri/src/checkpoints.rs:186-208 | an inline pass keeps the invariant whatever git fails on, adding as debt only refs of rows whose repository it could not reach |
| CheckpointProtocol.InsertKeeps | src-tauri/src/checkpoints.rs:94-109 | an insert keeps the invariant, and its row may count as the session's baseline when the session was empty |
| CheckpointProtocol.BaselineLeaksNothing | src-tauri/src/checkpoints.rs:280-294 | the prune behind a baseline insert never removes anything that could strand a ref |
| CheckpointSections.BaselineInserts | src-tauri/src/checkpoints.rs:276-294 | a session that has a row is left as it is; any other has exactly one row afterwards, the baseline: no message, the snapshot's tree, the next id, its ref if git could write it; other sessions keep theirs |
| CheckpointSections.TurnInserts | src-tauri/src/checkpoints.rs:399-416 | nothing happens if and only if the session's newest row has the snapshot's tree; otherwise the turn's row is recorded with its message and ref, and only oldest turn rows of the session may go, none under the cap |
| CheckpointSections.StepsAreSections | src-tauri/src/checkpoints.rs:335-444 | the locked step of each thread is exactly `insert_baseline` or `after_turn_insert` on the store of that moment, and that of a boot prune is `boot_prune` |
| CheckpointSections.BaselineDetached | src-tauri/src/checkpoints.rs:351-372 | left alone, the detached three phases come to the inline form: `insert_baseline` when enabled, in a work tree and with a snapshot, and otherwise nothing |
| CheckpointSections.TurnDetached | src-tauri/src/checkpoints.rs:378-444 | the same for the checkpoint at the end of a turn |
| CheckpointSections.GateExactly | src-tauri/src/checkpoints.rs:42-47 | a thread starts if and only if checkpoints are enabled, the directory is a work tree and, for a baseline, the session has no row |
| CheckpointSections.InFlightWasAdmitted | src-tauri/src/checkpoints.rs:269-372 | over any run every thread in flight was let in by such a gate, for its own session and repository |
| CheckpointSections.PassTakesExactly | src-tauri/src/checkpoints.rs:172-208 | an inline pass takes the i-th oldest turn row if and only if it is over the cap and among the first eight, and git refuses neither its ref nor an older one |
| CheckpointSections.BootPruneTakesExactly | src-tauri/src/checkpoints.rs:215-239 | the boot prune takes the i-th oldest turn row if and only if it is over the cap or older than the cutoff, and a row without a message only for its age |
| CheckpointSections.QueueDrains | src-tauri/src/checkpoints.rs:578-592 | the detached half can always be finished, and then exactly the queued refs are gone |
| CheckpointRows.OneMoreDeleted | src-tauri/src/checkpoints.rs:203-207 | deleting the next candidate, by id and ref, is the same as having dropped one more of the oldest turn rows |
| CheckpointRows.DropTurnsKeeps | src-tauri/src/db/checkpoints.rs:134-146 | dropping k turn rows leaves exactly the rows outside the first k turns in id order, in the same order |
| CheckpointCap.PruneTakesOldestTurns | src-tauri/src/checkpoints.rs:186-208 | pruning removes a prefix of the session's turn rows in age order, at most eight, and nothing else: no row without a message, no row of another session; all queries afterwards follow |
| CheckpointCap.PruningInsert | src-tauri/src/checkpoints.rs:136-208 | one pruning insert changes the session's count by exactly one up, or seven down and not below the floor set by the cap and the message-less rows |
| CheckpointCap.InlinePruneConverges | src-tauri/src/checkpoints.rs:147-208 | the closed form of the count after any number of pruning inserts: seven fewer each while over the floor, one more each while under it, and the floor is kept once reached |
| CheckpointCap.CapReachedInTime | src-tauri/src/checkpoints.rs:147-151 | from any excess e the cap is met within ceil(e/7) pruning inserts, and held |
| CheckpointCap.NewTurnSurvives | src-tauri/src/checkpoints.rs:133-139 | a new turn checkpoint outlives the prune of its own insert if and only if enough older turn rows exist to be taken first, or git refuses one of them |
| CheckpointCap.CapOneLosesNewTurn | src-tauri/src/checkpoints.rs:133-139 | a state in which it does not: cap one, only a baseline there |
| CheckpointCap.RepeatedTurnIsSkipped | src-tauri/src/checkpoints.rs:376-415 | turn ends at which the tree did not change leave no second checkpoint, at any later time, cap and message, as long as the first one's row is there |
| CheckpointCap.TurnOutlives | src-tauri/src/checkpoints.rs:147-208 | the turn row with p older ones before it outlives any number of pruning inserts if and only if they have taken at most p rows, with a cap and failing refs of each insert's own |
| CheckpointCap.TakenIs | src-tauri/src/checkpoints.rs:172-208 | under one cap and while git deletes the refs, how many rows n pruning inserts take follows from the count, the floor and n alone |
| CheckpointStores.CheckpointStore.DeleteWithRef | src-tauri/src/checkpoints.rs:172-184 | the row goes exactly when it has no ref, its repository is gone or git deletes the ref; otherwise nothing changes |
| CheckpointStores.CheckpointStore.DeleteOldest | src-tauri/src/checkpoints.rs:203-207 | the loop sheds exactly the candidates before the first one git refuses |
| CheckpointStores.CheckpointStore.PruneOverCap | src-tauri/src/checkpoints.rs:189-208 | rows and refs become what the value-level pass gives, for every cap and every git |
| CheckpointStores.CheckpointStore.InsertRow | src-tauri/src/checkpoints.rs:94-109 | the row goes in under a new id; its ref is recorded only when git wrote it |
| CheckpointStores.CheckpointStore.Create | src-tauri/src/checkpoints.rs:68-140 | insert, then prune only when asked to; ids stay ascending |
| CheckpointStores.CheckpointStore.InsertBaseline | src-tauri/src/checkpoints.rs:280-294 | inserts only when the session is still empty under the second lock |
| CheckpointStores.CheckpointStore.InsertTurn | src-tauri/src/checkpoints.rs:399-415 | skipped exactly when the tree is that of the session's last row |
| CheckpointStores.CheckpointStore.SessionIds | src-tauri/src/db/checkpoints.rs:150-155 | every session with a row, each once |
| CheckpointStores.CheckpointStore.OverCapVictims | src-tauri/src/checkpoints.rs:216-232 | exactly the over-cap oldest turn rows of every session |
| CheckpointStores.CheckpointStore.OlderThan | src-tauri/src/db/checkpoints.rs:159-164 | exactly the rows created before the cutoff |
| CheckpointStores.CheckpointStore.GroupRefs | src-tauri/src/checkpoints.rs:248-256 | each ref is grouped under its own row's repository, and nothing else is |
| CheckpointStores.CheckpointStore.BootPrune | src-tauri/src/checkpoints.rs:215-267 | the victims' rows are gone, and exactly their refs are handed over, each under its row's repository |
| CheckpointStores.CheckpointStore.PruneRefGroups | src-tauri/src/checkpoints.rs:578-590 | exactly the handed-over refs that git can delete are gone |
| CheckpointRestores.RestoreOnlyAdds | src-tauri/src/checkpoints.rs:459-530 | no restore deletes a checkpoint; on success, and on a checkout that breaks, a safety row with the tree and message mark of before is there; every other failure changes nothing |
| CheckpointRestores.RestoreExactly | src-tauri/src/checkpoints.rs:459-530 | the request, the row and the repository alone decide the answer; a failing checkout comes after the safety row, leaves the tree as the checkout left it and the conversation as it was; the three earlier failures change nothing |
| CheckpointRestores.RestoreIsStep | src-tauri/src/checkpoints.rs:488-507 | what a restore does to the store is one step of the threads' protocol, so its invariant covers it |
| CheckpointRestores.UndoOne | src-tauri/src/checkpoints.rs:446-510 | restoring the safety row gives the working trees of before, also after a checkout that left an arbitrary tree, as long as the row is still there |
| CheckpointRestores.UndoAfterTurns | src-tauri/src/checkpoints.rs:136-208 | after any number of pruning turns, each under a cap and with failing refs of its own, the undo still gives the trees of before if and only if the safety row has no message or the turns took fewer rows than there were turn rows; otherwise it finds nothing |
| CheckpointRestores.UndoAfterSteadyTurns | src-tauri/src/checkpoints.rs:136-208 | under one cap and while git deletes the refs, the number of turns alone decides whether the undo is still there |
| CheckpointRestores.UndoChain | src-tauri/src/checkpoints.rs:446-530 | any chain of successful restores, across sessions and repositories, is undone by restoring its safety rows newest first; every one of those restores succeeds |
| CheckpointRestores.ChainConversations | src-tauri/src/checkpoints.rs:511-551 | after any chain of restores and its undo each conversation is what one rollback to the smallest bound of the chain leaves, whatever rollbacks the undo asks for |
| CheckpointRestores.RollBacksCollapse | src-tauri/src/db/chat.rs:1257-1299 | any sequence of conversation rollbacks is one rollback to the smallest bound, a missing bound counting as 0 |
| CheckpointRestores.HighWater | src-tauri/src/checkpoints.rs:487-496 | the largest message id, or none when and only when the conversation is empty |
| CheckpointRestores.RestoreConversations | src-tauri/src/checkpoints.rs:511-530 | a rollback keeps exactly the session's messages up to the bound (none counts as 0) and every other session's, and reports how many went; without one nothing goes |
| CheckpointRestores.SafetyKeepsConversation | src-tauri/src/checkpoints.rs:480-507 | rolling back to a safety row deletes exactly the messages that came after it, never the whole conversation |
| CheckpointRestores.UndoConversation | src-tauri/src/checkpoints.rs:511-525 | restore and undo leave the conversation as it was if and only if no rollback was asked for or no message was past the checkpoint |
| CheckpointRestores.UndoLosesMessage | src-tauri/src/checkpoints.rs:446-451 | a world in which a restore with rollback and its undo bring back the tree and not the last message |
| CheckpointRestores.Workspace.RollbackConversation | src-tauri/src/checkpoints.rs:546-551 | keeps ids up to the bound, none without a bound, and returns how many went |
| CheckpointRestores.Workspace.Restore | src-tauri/src/checkpoints.rs:459-530 | table, trees, conversation and outcome on all five exits |
| AutomationRuns.NextExclusive | src-tauri/src/automations.rs:448-528 | every step of every thread and process keeps the agreement between RUNNING and the one run of each slot that holds the guards |
| AutomationRuns.NextFlagged | src-tauri/src/automations.rs:78-100 | every step keeps each CANCEL entry the current flag of a launch of its slot that has not withdrawn it, and no flag is set before it was published |
| AutomationLocks.NextAuthored | src-tauri/src/automations.rs:541-573 | every step keeps each lock file, there or only read, with its author: a launch of the automation that owns one or is done for good |
| AutomationLocks.RobbedExactly | src-tauri/src/automations.rs:448-573 | while the runs of an automation all have the lock files they rely on, a step ends that if and only if it is the removal in a takeover of a file still in use |
| AutomationLocks.LosesLockExactly | src-tauri/src/automations.rs:448-573 | in every reachable state a run loses its lock file if and only if the step is the removal in a takeover, or the end of another run of the automation that owns a lock file; one without its file gets one again only by writing its PID where none is |
| AutomationLocks.HasAlong | src-tauri/src/automations.rs:448-573 | lifted over runs: a file is there at the end if and only if neither of these removed it after its owner last made it |
| AutomationLocks.ReliesExactly | src-tauri/src/automations.rs:448-573 | lifted over runs: from any such reachable state they have them all along if and only if no step robs that automation |
| AutomationLocks.OneLockedRun | src-tauri/src/automations.rs:529-576 | across processes two runs relying on locks for one automation are the same run, unless that automation was robbed since its locks were last unused; other automations play no part |
| AutomationLocks.NextEvidence | src-tauri/src/automations.rs:549-560 | every step keeps what launches have read of a lock in use true: the PID is its owner's, and it is judged stale by age only |
| AutomationLocks.WhyRobbed | src-tauri/src/automations.rs:548-573 | the first robbery since the locks were last unused has a live victim, and removes another file than the judged one or a file over six hours old |
| AutomationLocks.AtOnceExcludes | src-tauri/src/automations.rs:529-576 | with looking at a lock and removing it as one step, and no run of the automation over six hours old, its lock files exclude over every interleaving |
| AutomationLocks.WhoRemovesLocks | src-tauri/src/automations.rs:448-564 | with takeovers as one step a lock file goes only when a run that owns one ends, and it is that run's own if and only if no step removed that one before, or in a takeover, which takes the very file it judged, and that is stale |
| AutomationLaunches.OneRunPerProcess | src-tauri/src/automations.rs:512-523 | in every reachable state at most one run per automation holds the guards of a process, on all paths of prepare |
| AutomationLaunches.GuardsReleased | src-tauri/src/automations.rs:443-454 | once every launch of a slot is over and none is stuck in a bot exit, RUNNING and CANCEL are free of it |
| AutomationLaunches.StrandedBlocks | src-tauri/src/automations.rs:603-633 | after a missing-bot or disabled-bot exit no other launch of that automation ever holds the guards in that process again |
| AutomationLaunches.LaunchEnds | src-tauri/src/automations.rs:510-576 | a launch looks at the lock at most three times and each of its operations lowers a bounded measure, whatever others do |
| AutomationLaunches.LockRefusal | src-tauri/src/automations.rs:541-576 | left alone, guard 2 turns a launch away if and only if a lock that is not stale is there, and creates one if and only if none is |
| AutomationLaunches.VanishedLockRefuses | src-tauri/src/automations.rs:548-575 | a lock file that is gone by the time it is read turns the launch away, however stale it was |
| AutomationLaunches.DeadOwnerBlocksNobody | src-tauri/src/automations.rs:548-573 | a launch that meets a dead owner's lock, left alone and with a retry left, replaces it with its own and gets its run |
| AutomationRaces.TwoProcessesRun | src-tauri/src/automations.rs:548-572 | a reachable state in which two processes took over one dead lock within one instant and both run the automation |
| AutomationRaces.OldRunLosesLock | src-tauri/src/automations.rs:533-560 | a reachable robbery by age alone: the takeover removes the very file it judged, of a live owner, and both processes run |
| AutomationRaces.RobbedRunTakesLock | src-tauri/src/automations.rs:448-454 | a reachable state from which the end of a robbed run, no takeover, removes the lock of the run that took over, which goes on without one |
| AutomationRaces.DisabledBotBlocks | src-tauri/src/automations.rs:624-633 | a reachable state in which a launch is stranded by a disabled bot and the next launch has been turned away |
| AutomationRaces.StopMissesRunningRun | src-tauri/src/automations.rs:448-454 | a reachable state in which a running run has no stop flag to be found |
| AutomationStops.StopReaches | src-tauri/src/automations.rs:87-100 | from any reachable state in which stop finds the runs of a slot it finds them all along a run if and only if no release of that slot crosses one; at the end it answers false once nothing of the slot runs or withdraws |
| AutomationStops.LostExactlyByCrossing | src-tauri/src/automations.rs:448-454 | in every reachable state a run past its publish step loses its entry in a step if and only if that step is the second removal of a release in its slot; what is lost stays lost |
| AutomationStops.AtOnceNeverCrosses | src-tauri/src/automations.rs:448-454 | when no other launch of the slot acts between the two removals, no release crosses a run |
| AutomationStops.StopExact | src-tauri/src/automations.rs:87-100 | with the two removals as one step, stop answers true if and only if a run of the slot is past its publish step and not released |
| AutomationStops.FreshFlag | src-tauri/src/automations.rs:524-528 | each launch publishes a flag of its own that stays false until its slot is stopped after that: earlier stops, even those fetched and not yet stored, never reach it |
| AutomationStops.StopTakesHold | src-tauri/src/automations.rs:87-104 | a stop that reaches a run raises that run's own flag, whatever happens between its two operations, and nothing takes it back |
| AutomationGuards.Through | src-tauri/src/automations.rs:512-576 | the attempt at which guard 2 lets a launch through: every earlier one met a stale lock; there is none exactly when a fresh lock or the third stale one stopped it |
| AutomationGuards.Guards.ReleaseGuards | src-tauri/src/automations.rs:448-454 | both entries of the automation go, and its lock file when the run had one; nothing else changes |
| AutomationGuards.Guards.StopRun | src-tauri/src/automations.rs:91-100 | true exactly when a flag is registered, and then that flag is up |
| AutomationGuards.Guards.LookAtLock | src-tauri/src/automations.rs:540-579 | creates and records the file only where none is, judges the one that is, touches no other automation's |
| AutomationGuards.Guards.TryGuards | src-tauri/src/automations.rs:514-562 | in with a fresh flag, or both guards given back and the lock file it met left alone |
| AutomationGuards.Guards.EnterGuards | src-tauri/src/automations.rs:512-580 | with its recursion: through exactly when some attempt lets it, then holding both guards with a fresh false flag, otherwise with both tables free of the automation |
| AutomationGuards.Guards.PrepareRun | src-tauri/src/automations.rs:512-681 | the outcome of all exits; refusals and failures give both guards back, the bot exits keep them, success holds them; a refusal leaves a lock file that is in force, or none when all its looks found a stale one |
| AutomationGuards.StepsComeToTheSame | src-tauri/src/automations.rs:512-681 | a launch that the others leave alone goes, operation by operation, exactly where `prepare_run_inner` goes: same outcome, same guards, same lock file, for every lock it may meet, all five conditions of the bot and both of the session |
| AutomationGuards.BareStepsComeToTheSame | src-tauri/src/automations.rs:538-573 | the same without a lock path or when the file system fails at the lock: the launch goes on without a lock file |
| AutomationGuards.OutcomeExactly | src-tauri/src/automations.rs:512-681 | when each of the five outcomes is the answer, over all conditions of the bot: a run needs both guards, an enabled bot or none, and a session that binds |
| AutomationGuards.ThreeLooks | src-tauri/src/automations.rs:513-572 | guard 2 lets in if and only if one of at most three looks finds no lock file and every look before it a stale one: a dead recorded PID, or over 21600 seconds old |
| AutomationGuards.UnsignedLockBlocks | src-tauri/src/automations.rs:542-559 | a launch whose PID could not be written goes on, and its lock file keeps others out for six hours whether its process lives or not |
| CronClock.NextFire | src-tauri/src/automations.rs:270-275 | the first instant of the schedule strictly after the given one, none only when none is left |
| CronClock.DueIffSlotPassed | src-tauri/src/automations.rs:214-233 | a row is due if and only if at least one slot has passed since its last recorded scheduled run, however many were missed |
| CronClock.NextTiled | src-tauri/src/automations.rs:172-194 | every tick, launch, finish and wait keeps the recorded scheduled runs tiling the time line, each with a slot in its stretch |
| CronClock.SpansDisjoint | src-tauri/src/automations.rs:214-233 | over any life of the row, two recorded scheduled runs consume disjoint stretches, each holding a slot |
| CronClock.RunsAtMostSlots | src-tauri/src/automations.rs:214-217 | over any life of the row there are at most as many recorded scheduled runs as slots that passed |
| CronClock.EventRunsNeverMoveTheClock | src-tauri/src/db/automations.rs:321-338 | any number of manual and event runs leaves the cron clock where it was, and a due row due |
| CronClock.LostWriteRefires | src-tauri/src/automations.rs:1051-1070 | a scheduled run whose write is lost is launched again by the next tick |
| CronClock.ScheduledRunRecorded | src-tauri/src/db/automations.rs:321-338 | a due idle row is launched by the tick; recording the run moves the cron clock to that moment and nothing else, and the row is not due until another slot comes |
| CronClock.EventRunRecorded | src-tauri/src/db/automations.rs:321-338 | a recorded manual or event run moves the event clock to that moment and nothing else |
| CronClock.TickAlone | src-tauri/src/automations.rs:172-194 | a tick launches nothing while a run is in flight or when no slot has passed |
| CronClock.Automation.IsDue | src-tauri/src/automations.rs:218-233 | due exactly for enabled cron rows whose clock says so |
| CronClock.Automation.Tick | src-tauri/src/automations.rs:172-194 | marks the row in flight exactly when it is idle and due |
| CronClock.Automation.Finish | src-tauri/src/automations.rs:1033-1070 | only a recorded scheduled run moves the cron clock, any other recorded run only the event clock |
| Forests.PruneKeepsExactly | src-tauri/src/bridge_readability.js:2641-2651 | an element survives recursive pruning if and only if neither it nor an ancestor below `e` matches the filter on its original content |
| Forests.PruneKeepsOrder | src-tauri/src/bridge_readability.js:2641-2651 | survivors keep their document order |
| Forests.FinishStep | src-tauri/src/bridge_readability.js:2644-2650 | keeping or removing the visited element each leaves the final tree what it was going to be, with less left to visit |
| ReadabilityWalk.Node.Remove | src-tauri/src/bridge_readability.js:932-936 | rewrites exactly the links around the removed element |
| ReadabilityWalk.UnlinkCuts | src-tauri/src/bridge_readability.js:932-936 | those rewritten links spell out the document with that one subtree cut out |
| ReadabilityWalk.Climb | src-tauri/src/bridge_readability.js:958-965 | following `parentNode` from a last sibling keeps the document-order successor |
| ReadabilityWalk.GetNextNode | src-tauri/src/bridge_readability.js:949-965 | the result is the next element in document order, with or without the element's own subtree; the climb ends |
| ReadabilityWalk.RemoveAndGetNext | src-tauri/src/bridge_readability.js:932-936 | the subtree is cut out and the successor from before the removal is returned |
| ReadabilityWalk.Below | src-tauri/src/bridge_readability.js:806-813 | what a filter reads below an element is that element's current subtree |
| ReadabilityWalk.Marker | src-tauri/src/bridge_readability.js:2642 | the end marker lies outside the subtree of `e` and stays the right place to stop |
| ReadabilityWalk.Visit | src-tauri/src/bridge_readability.js:2644-2650 | one iteration keeps the promise that pruning what is ahead gives the wanted result, and uses up work |
| ReadabilityWalk.Stop | src-tauri/src/bridge_readability.js:2644 | standing on the marker means nothing is left to prune |
| ReadabilityWalk.CleanMatchedNodes | src-tauri/src/bridge_readability.js:2641-2651 | ends, and leaves the linked document with exactly the pruned children below `e` and nothing else changed |
| StableOrders.StableOrderIsSorted | src-tauri/src/bridge_readability.js:1276-1306 | the insertion order lists every candidate once, by descending score, ties in arrival order |
| StableOrders.StableOrderUnique | src-tauri/src/bridge_readability.js:1276-1306 | there is only one such order |
| StableOrders.TakeInsert | src-tauri/src/bridge_readability.js:1292-1305 | keeping only the best n while inserting loses nothing against sorting everything first |
| StableOrders.InsertAt | src-tauri/src/bridge_readability.js:1292-1299 | splicing at the first beaten place is insertion into the stable order |
| TopCandidateLoop.Offer | src-tauri/src/bridge_readability.js:1292-1305 | the inner loop gives the best n of the old list with the candidate inserted, for every n |
| TopCandidateLoop.TopCandidates | src-tauri/src/bridge_readability.js:1278-1306 | scores are scaled in place and the result is the first n of the stable descending order of the scaled scores |
| FlagSieve.StripDrops | src-tauri/src/bridge_readability.js:2686-2692 | removing the first active flag leaves exactly one fewer active |
| FlagSieve.PassesInOrder | src-tauri/src/bridge_readability.js:1556-1562 | at pass i exactly i flags have been given up: none comes on, the class weights only once the unlikelies are off, the conditional cleaning only once both are |
| FlagSieve.FourPasses | src-tauri/src/bridge_readability.js:1556-1562 | from all three flags the passes run with 7, 6, 4 and 0 |
| FlagSieve.SortedHead | src-tauri/src/bridge_readability.js:1564-1573 | the head of the sorted attempts is the longest, the earliest of those as long |
| FlagSieve.Readability.RemoveFirstFlag | src-tauri/src/bridge_readability.js:1556-1562 | drops one flag in the fixed order, and says no exactly when none is active |
| FlagSieve.Readability.BestAttempt | src-tauri/src/bridge_readability.js:1563-1575 | the earliest longest attempt, or nothing exactly when all attempts are empty |
| FlagSieve.Readability.GrabArticle | src-tauri/src/bridge_readability.js:1545-1596 | at most four passes; the first attempt that reaches the threshold, else the earliest longest of all, else nothing |
| FloodFill.NearMask | scripts/make_logo_transparent.py:19-27 | exactly the pixels all of whose channels are at most 35 |
| FloodFill.Seed | scripts/make_logo_transparent.py:28-32 | exactly the near pixels of the image border |
| FloodFill.Grow | scripts/make_logo_transparent.py:34-37 | adds exactly the near pixels with a set neighbour on the torus, which is what the four wrapped shifts mean |
| FloodFill.GrowIsPlain | scripts/make_logo_transparent.py:33-40 | once the border is seeded, growing on the torus adds exactly the near pixels with a plain set neighbour: wrap-around contributes nothing |
| FloodFill.GrowFloods | scripts/make_logo_transparent.py:33-40 | a grow step keeps the mask within the connected near pixels, and one that adds nothing has found all of them |
| FloodFill.ClosedHoldsWalk | scripts/make_logo_transparent.py:33-40 | a set with all near border pixels that is closed under near neighbours holds every pixel connected to the border |
| FloodFill.AllEqual | scripts/make_logo_transparent.py:38 | true exactly when the two masks are the same set |
| FloodFill.Flood | scripts/make_logo_transparent.py:27-40 | ends, and the result is exactly the near pixels 4-connected to the border, for every size and mask |
| FloodFill.BackdropAlpha | scripts/make_logo_transparent.py:19-44 | a pixel is transparent if and only if dark pixels connect it to the border |
| DebounceLoops.DrainFs | src-tauri/src/automation_triggers.rs:604-613 | a burst ends only by a quiet window after its last event or the ceiling, within the ceiling plus one window, with all its events received; it is lost if and only if it has the last event, received before the ceiling, and the channel hangs up within a quiet window after that |
| DebounceLoops.WatchFs | src-tauri/src/automation_triggers.rs:600-619 | every event is in a burst; with a quiet window of one second and a ceiling of ten, a burst fires, and in time, if and only if the hang-up does not cut it off by that condition, which only the last one can meet |
| DebounceLoops.DrainDocs | src-tauri/src/docs_watcher.rs:115-118 | the same, except that a hang-up ends the burst too and loses nothing |
| DebounceLoops.WatchDocs | src-tauri/src/docs_watcher.rs:112-124 | every event is in a burst and every burst fires in time, with a window of two seconds and a ceiling of fifteen, heartbeats and hang-up included |
| DebounceLoops.EveryEventFires | src-tauri/src/automation_triggers.rs:494-499 | with instant processing every event is followed by a fire within the ceiling plus one quiet window of that event, unless it was in the last burst and the hang-up cut that one off |
| DebounceLoops.WokenAtOnce | src-tauri/src/automation_triggers.rs:602 | with instant processing each burst is woken the moment its first event arrives |
| RefireInterval.LaunchesSpaced | src-tauri/src/automation_triggers.rs:650-665 | under a clock that never steps back all launches of one automation are at least the interval apart, the stored one included |
| RefireInterval.LaunchesExactly | src-tauri/src/automation_triggers.rs:650-665 | a fire launches if and only if every launch before it, the stored one included, is at least the interval ago, a minute by default |
| RefireInterval.IntervalKeptExactly | src-tauri/src/automation_triggers.rs:653-664 | the interval is kept for all sequences of fires if and only if it survives the cast to a signed integer |
| RefireInterval.OneMoreFire | src-tauri/src/automation_triggers.rs:650-675 | one more fire adds at most one launch and stores its time, from the stored epoch alone |
| RefireInterval.FileTrigger.Fire | src-tauri/src/automation_triggers.rs:650-679 | the row's launches and epoch stay those that its whole history of fires calls for |
| GitTriggers.TriggerTable.Evaluate | src-tauri/src/automation_triggers.rs:312-346 | one pass gives every row the state and the answer of its own comparison, and returns exactly the rows that fire |
| GitTriggers.FiresExactlyOnChange | src-tauri/src/automation_triggers.rs:308-352 | over any passes a row fires if and only if git answers and the head differs from the last one git answered with: never on first sight |
| GitTriggers.OthersNeverFire | src-tauri/src/automation_triggers.rs:313-320 | over any passes a row that is disabled or has another trigger never fires and keeps its state |
| GitTriggers.FiredInOrder | src-tauri/src/automation_triggers.rs:321-345 | a pass returns the ids of exactly the rows that fire, each once, in row order |
| BodyPump.Receive | src-tauri/src/download.rs:77-101 | what one arrival does: it stops the loop or appends its chunk, a torn write leaving a prefix of the chunk |
| BodyPump.Stream | src-tauri/src/download.rs:68-103 | the first stopping arrival decides the outcome, the count and the reported totals; the file stays a prefix of the body |
| BodyPump.Pump | src-tauri/src/download.rs:38-109 | on every exit the partial file is a prefix of the body as long as the returned count plus the torn bytes of a failed write; cancelled, stalled, read error, write error or completed is the answer if and only if the first arrival that stops the loop, or the flush, says so; the count is that of the bytes passed and of a refused chunk |
| BodyPump.EndingIs | src-tauri/src/download.rs:68-108 | the first arrival that is not passed decides the outcome, each kind for its own; the bytes before it count, and of itself a refused chunk |
| BodyPump.AttemptDecided | src-tauri/src/chat/tasks.rs:962-1009 | a request is retried if and only if its file opens and the first stop is a stall or a read error, and completes if and only if nothing stops it |
| BodyPump.TotalsIncrease | src-tauri/src/download.rs:97-100 | the totals reported strictly increase from above the start to the returned count |
| BodyPump.Extends | src-tauri/src/download.rs:87-97 | each stretch of the body, or the part of it that reaches the disk, keeps the partial file a prefix of the body |
| BodyPump.FinishesExactly | src-tauri/src/chat/tasks.rs:818-1033 | the retries succeed if and only if some request completes and every one before it ended in a stall or a read error |
| BodyPump.Download | src-tauri/src/chat/tasks.rs:807-1033 | over any number of cancelled, stalled and failed requests, resumed or restarted, the partial file stays a prefix of the body; no request follows a cancelled, unwritable or completed one and every other is followed by the next; it reports completion exactly when the last request got everything, and then the file is the body |
| BotRuns.StepConsistent | src-tauri/src/bot_runs.rs:71-120 | every reservation, mark and drop keeps each count equal to the live guards, no zero stored, at most one reservation a bot |
| BotRuns.CountsGuards | src-tauri/src/bot_runs.rs:28-120 | over any interleaving a bot's count is its number of live guards, it reads idle if and only if none is alive, no entry is zero, and no bot has two live reservations |
| BotRuns.BusyUntilDropped | src-tauri/src/bot_runs.rs:71-120 | once a mark or a reservation is granted the bot is busy and every reservation refused until that very guard is dropped, whatever else happens |
| BotRuns.DropFrees | src-tauri/src/bot_runs.rs:77-100 | a drop ends that guard and no other; after the last one a reservation is granted again |
| BotRuns.RunTable.IsRunning | src-tauri/src/bot_runs.rs:40-45 | true if and only if a guard of the bot is alive |
| BotRuns.RunTable.MarkRunning | src-tauri/src/bot_runs.rs:71-106 | one more count and one more live guard |
| BotRuns.RunTable.ReserveRun | src-tauri/src/bot_runs.rs:113-120 | granted if and only if no guard of the bot is alive |
| BotRuns.RunTable.DropGuard | src-tauri/src/bot_runs.rs:77-100 | one guard fewer; the entry goes with the last |
| Diagnostics.Diag.Push | src-tauri/src/browser.rs:780-787 | both rings stay the last hundred of their kind of everything logged, under one gapless counter |
| Diagnostics.Diag.Read | src-tauri/src/browser_js.rs:602-613 | the ring's entries after the cursor, and the counter to resume with |
| Diagnostics.ReadGivesTheNew | src-tauri/src/browser_js.rs:600-613 | a resumed read gives exactly what arrived of its kind since the cursor, in order, cut to the last hundred |
| Diagnostics.NothingLostOrRepeated | src-tauri/src/browser_js.rs:600-613 | over any interleaving of entries and polls the polls together give each entry of the kind once, in order, if each comes within a hundred of that kind |
| Diagnostics.TailOneMore | src-tauri/src/browser.rs:785-786 | appending and cutting back keeps exactly the last hundred |
| Census.Tag | src-tauri/src/bridge_snapshot.js:37-43 | the step the three loops share keeps every counted element numbered by its place in the census |
| Census.CensusHolds | src-tauri/src/bridge_resolve.js:29-33 | the census has exactly the elements that are no overlay and have an extent |
| Census.TagInteractiveElements | src-tauri/src/bridge_extract.js:115-165 | the list is the census and each element carries its place; other elements keep their attribute |
| Census.Consider | src-tauri/src/bridge_snapshot.js:37-89 | one element changes the count, the numbering and the listing together, and the query only the listing |
| Census.Snapshot | src-tauri/src/bridge_snapshot.js:37-90 | the same numbering for every query; the listing is the first 250 hits |
| Census.MatchOf | src-tauri/src/bridge_resolve.js:94-99 | exact if some non-empty field equals the description, substring if none does but one contains it, and no match otherwise |
| Census.FieldsDecide | src-tauri/src/bridge_resolve.js:90-99 | any one of the five fields is enough for a match, an empty one never |
| Census.ContainsExactly | src-tauri/src/bridge_resolve.js:98 | a substring match finds the description wherever it occurs |
| Census.BestMatch | src-tauri/src/bridge_resolve.js:88-111 | the winner is the first minimum of the score over all matches, and there is none exactly when nothing matches |
| Census.ScoreExactly | src-tauri/src/bridge_resolve.js:76-107 | the score from the place of the tag in button, input, a, [role=button], select, the label's length, the kind of match and the penalty |
| Census.Resolve | src-tauri/src/bridge_resolve.js:24-111 | the same numbering as the other two, and the first minimum over that census |
| Census.ShorterLabelWins | src-tauri/src/bridge_resolve.js:101-107 | between two matches of one kind the shorter label wins if and only if it is shorter by more than ten characters for each place its tag ranks lower, with 500 more for an element that cannot be typed into when the action types |
| Census.LongerLabelCanWin | src-tauri/src/bridge_resolve.js:101-110 | a nine-character button is picked over a five-character link |
| Census.ExactWins | src-tauri/src/bridge_resolve.js:101-107 | the winner is an exact match if and only if there is one, since a label has at most 120 characters |

## Left out

- Real git and SQLite: a working tree is the hash of its snapshot, so ignored files, file contents, diffs of a checkpoint and their `files` column are not modelled; failing database reads (counted as 0 or skipped in the code) and failing row deletes and writes are not either, except for the recording of a run in `CronClock`.
- A ref that git wrote while the row's update failed: the code ignores that failure; here the two succeed or fail together.
- `prune_session_refs` before a session is deleted, the `checkpoint:created` event and the settings parser.
- Interleaving of one restore with other threads: `AfterRestore` is one step; the part that touches the table is a step of the protocol too (`SafetyInsert`), so its invariant covers it.
- `checkpoints.enabled` stops new checkpoints only: `restore` does not look at it, so neither does the model.
- Cron expressions and time zones: a schedule is any set of instants. A second process recording scheduled runs on the same row is left out of `CronClock`.
- Gmail triggers, which make the same comparison as git triggers over a history id, webhooks, and the parsing of a trigger's configuration: only easy members.
- The run itself between prepare and finalize (harness, prompts, notifications, the two-hour bound), panics and mutex poisoning. A second write attempt of `record_run` is folded into its success.
- Thread numbers and lock creators exist for the proofs only. A recycled PID is a process that starts again under it.
- The rows that log runs (`start_run`, `finish_run` and the bot's own) and the status stamped on a skipped automation.
- Readability's scoring, regular expressions and title heuristics: a filter is any predicate on an element and its subtree, a pass is any function of the flags, scores and link densities are reals. Elements stand for the element links only; text nodes play no part in the walk.
- The logo script's crop, square canvas, resize and file output.
- `RecvTimeout`: an event that arrives exactly at the timeout counts as received, and the two timed watchers are modelled in whole milliseconds.
- The watcher registries, corpus re-indexing and the path filter of `fire_fs_automations`.
- Buffered writes: the file the pump writes to may hold a chunk back, and report its write error only at a later write or flush, which a cancelled, stalled or broken download does not reach. `Write` reports at once.
- HTTP status handling of the download task beyond 200 and 206, its back-off pauses, hashes and final rename. `Pump` takes the order in which the biased select yields things as given.
- Cancel flags by run id in `bot_runs.rs`, and the guard of a run's row.
- A page reload, which restarts the diagnostics counter, and the timestamps and bodies of the entries.
- The resolver's CSS-selector branch, confidence word and not-found suggestions, and looking an element up by its attribute later: elements that left the census keep an old number. Lower-casing is any function on strings, a label is given already normalised and cut.
